/**
 * What both routers share: the HTTP errors they answer with, FastAPI's
 * `HTTPException` reduced to its kinds, and the counted collections of
 * chats and users they return, sorted as `list.sort` sorts them.
 */
module Listings {
  import opened Wrappers
  import opened Entities
  import opened Sorting

  /** The HTTP errors the handlers answer with. */
  datatype HttpError =
    | EntityNotFound(entityName: string, entityId: int)  // 404
    | NoPermission(description: string)                  // 403
    | InternalError                                       // 500: an exception no handler catches

  // ---------------------------------------------------------------- chats

  /**
   * A chat listing of `rows`: counted, sorted by name, and holding the
   * serialised rows, each as often as it occurs.
   */
  ghost predicate ChatListing(col: ChatCollection, rows: seq<ChatInDb>, users: map<int, UserInDb>)
    requires UsersKeyed(users) && OwnersPresent(rows, users)
  {
    && col.meta.count == |col.chats|
    && SortedBy(col.chats, ChatByName)
    && multiset(col.chats) == multiset(ChatsFromDb(rows, users))
  }

  /** A listing of the chats whose rows are `rows` holds exactly those chats, serialised. */
  lemma ChatListingHoldsExactly(col: ChatCollection, rows: seq<ChatInDb>, users: map<int, UserInDb>, c: Chat)
    requires UsersKeyed(users) && OwnersPresent(rows, users) && ChatListing(col, rows, users)
    ensures c in col.chats <==> exists row :: row in rows && row.ownerId in users && c == ChatFromDb(row, users[row.ownerId])
  {
    var out := ChatsFromDb(rows, users);
    assert c in col.chats <==> c in multiset(col.chats);
    assert c in out <==> c in multiset(out);
    if c in out {
      var i :| 0 <= i < |out| && out[i] == c;
      assert rows[i] in rows && rows[i].ownerId in users && c == ChatFromDb(rows[i], users[rows[i].ownerId]);
    }
    if exists row :: row in rows && row.ownerId in users && c == ChatFromDb(row, users[row.ownerId]) {
      var row :| row in rows && row.ownerId in users && c == ChatFromDb(row, users[row.ownerId]);
      var i :| 0 <= i < |rows| && rows[i] == row;
      assert out[i] == c;
    }
  }

  /** Serialise and sort by name the chats whose rows are `rows`; a missing owner is a 500. */
  method ListChats(rows: seq<ChatInDb>, users: map<int, UserInDb>) returns (r: Result<ChatCollection, HttpError>)
    requires UsersKeyed(users)
    ensures r.Err? <==> !OwnersPresent(rows, users)
    ensures r.Err? ==> r.error == InternalError
    ensures r.Ok? ==> OwnersPresent(rows, users) && ChatListing(r.value, rows, users)
  {
    if !OwnersPresent(rows, users) {
      return Err(InternalError);
    }
    ChatByNameIsTotalPreorder();
    var chats := SortBy(ChatsFromDb(rows, users), ChatByName);
    return Ok(ChatCollection(Metadata(|chats|), chats));
  }

  // ---------------------------------------------------------------- users

  /** A user listing: counted, sorted by id, and holding the members, each as often as linked. */
  ghost predicate UserListing(col: UserCollection, rows: seq<UserInDb>) {
    && col.meta.count == |col.users|
    && SortedBy(col.users, UserById)
    && multiset(col.users) == multiset(UsersFromDb(rows))
  }

  /** A listing of `rows` holds exactly the public views of those rows. */
  lemma UserListingHoldsExactly(col: UserCollection, rows: seq<UserInDb>, u: User)
    requires UserListing(col, rows)
    ensures u in col.users <==> exists row :: row in rows && u == UserFromDb(row)
  {
    var out := UsersFromDb(rows);
    assert u in col.users <==> u in multiset(col.users);
    assert u in out <==> u in multiset(out);
    if u in out {
      var i :| 0 <= i < |out| && out[i] == u;
      assert rows[i] in rows;
    }
    if exists row :: row in rows && u == UserFromDb(row) {
      var row :| row in rows && u == UserFromDb(row);
      var i :| 0 <= i < |rows| && rows[i] == row;
      assert out[i] == u;
    }
  }

  /** Serialise and sort by id. */
  method ListUsers(rows: seq<UserInDb>) returns (col: UserCollection)
    ensures UserListing(col, rows)
  {
    UserByIdIsTotalPreorder();
    var users := SortBy(UsersFromDb(rows), UserById);
    return UserCollection(Metadata(|users|), users);
  }
}
