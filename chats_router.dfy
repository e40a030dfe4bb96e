/**
 * The /chats handlers: the membership test, the guard every chat read goes
 * through, the owner check on renaming and the author check on editing or
 * deleting a message, and the filtered, sorted listings. The caller is the
 * user the authentication layer resolved, a row of the users table.
 */
module ChatsRouter {
  import opened Wrappers
  import opened Entities
  import opened Sorting
  import opened Database
  import opened Listings

  const ViewChatDenied: string := "requires permission to view chat"
  const EditMessageDenied: string := "requires permission to edit message"

  /** Every 404 of this router names the chat, even when it is the message that is missing. */
  function ChatNotFound(chatId: int): (e: HttpError)
    ensures e.EntityNotFound? && e.entityName == "Chat" && e.entityId == chatId
  {
    EntityNotFound("Chat", chatId)
  }

  // ---------------------------------------------------------------- membership

  /** `chat_has_user`: some member of the chat carries the user's id. */
  function ChatHasUser(members: seq<UserInDb>, other: UserInDb): (r: bool)
    ensures r <==> exists i :: 0 <= i < |members| && members[i].id == other.id
    decreases |members|
  {
    if members == [] then false
    else if members[0].id == other.id then true
    else
      var rest := ChatHasUser(members[1..], other);
      assert forall i :: 0 <= i < |members| - 1 ==> members[1..][i] == members[i + 1];
      rest
  }

  /** For a user that has a row, being among the chat's users is having a membership link. */
  lemma ChatHasUserIffLink(users: map<int, UserInDb>, links: seq<UserChatLink>, chatId: int, user: UserInDb)
    requires UsersKeyed(users) && user.id in users && users[user.id] == user
    ensures ChatHasUser(ChatUserRows(users, links, chatId), user) <==> UserChatLink(user.id, chatId) in links
  {
  }

  /** `[chat for chat in chats if chat_has_user(chat, user)]`, before serialisation. */
  function MemberChats(rows: seq<ChatInDb>, users: map<int, UserInDb>, links: seq<UserChatLink>, user: UserInDb)
    : (r: seq<ChatInDb>)
    requires UsersKeyed(users) && user.id in users && users[user.id] == user
    ensures r == ChatsWithMember(rows, links, user.id)
    decreases |rows|
  {
    if rows == [] then []
    else
      var init, last := rows[..|rows| - 1], rows[|rows| - 1];
      assert rows == init + [last];
      ChatsWithMemberAppend(init, last, links, user.id);
      ChatHasUserIffLink(users, links, last.id, user);
      MemberChats(init, users, links, user)
        + (if ChatHasUser(ChatUserRows(users, links, last.id), user) then [last] else [])
  }

  // ---------------------------------------------------------------- the guard

  datatype Guard = Allowed | ChatMissing | NotMember

  /** The error a refusing guard turns into. */
  function GuardError(g: Guard, chatId: int): (e: HttpError)
    requires !g.Allowed?
    ensures g.ChatMissing? ==> e == ChatNotFound(chatId)
    ensures g.NotMember? ==> e.NoPermission? && e.description == ViewChatDenied
  {
    if g.ChatMissing? then ChatNotFound(chatId) else NoPermission(ViewChatDenied)
  }

  /** The chat exists and the caller is one of its users. */
  ghost predicate Visible(db: Store, user: UserInDb, chatId: int)
    reads db
  {
    chatId in db.chats && UserChatLink(user.id, chatId) in db.links
  }

  /** `user_guard`: the chat is looked up first, so a missing chat is a 404 before any 403. */
  method UserGuard(db: Store, user: UserInDb, chatId: int) returns (g: Guard)
    requires db.Valid() && db.HasRow(user)
    ensures g == ChatMissing <==> chatId !in db.chats
    ensures g == Allowed <==> Visible(db, user, chatId)
  {
    var chat := db.GetChatById(chatId);
    if chat.Err? {
      return ChatMissing;
    }
    ChatHasUserIffLink(db.users, db.links, chatId, user);
    if ChatHasUser(ChatUserRows(db.users, db.links, chatId), user) {
      return Allowed;
    }
    return NotMember;
  }

  // ---------------------------------------------------------------- listings

  /** The chats a user is listed in are exactly the stored chats that link to the user. */
  lemma MemberChatListing(
    col: ChatCollection, chats: map<int, ChatInDb>, users: map<int, UserInDb>,
    links: seq<UserChatLink>, userId: int, c: Chat)
    requires ChatsKeyed(chats) && UsersKeyed(users)
    requires OwnersPresent(ChatsWithMember(AllChats(chats), links, userId), users)
    requires ChatListing(col, ChatsWithMember(AllChats(chats), links, userId), users)
    ensures c in col.chats <==>
      exists row :: row in chats.Values && UserChatLink(userId, row.id) in links
        && row.ownerId in users && c == ChatFromDb(row, users[row.ownerId])
  {
    ChatListingHoldsExactly(col, ChatsWithMember(AllChats(chats), links, userId), users, c);
  }

  /** `get_chats`: the caller's chats, sorted by name and counted. */
  method GetChats(db: Store, user: UserInDb) returns (r: Result<ChatCollection, HttpError>)
    requires db.Valid() && db.HasRow(user)
    ensures var mine := ChatsWithMember(AllChats(db.chats), db.links, user.id);
      && (r.Err? <==> !OwnersPresent(mine, db.users))
      && (r.Err? ==> r.error == InternalError)
      && (r.Ok? ==> OwnersPresent(mine, db.users) && ChatListing(r.value, mine, db.users))
  {
    var mine := MemberChats(AllChats(db.chats), db.users, db.links, user);
    r := ListChats(mine, db.users);
  }

  // ---------------------------------------------------------------- one chat

  /** `get_chat`: the guard, then the chat with the lists asked for in `include`. */
  method GetChat(db: Store, chatId: int, includes: seq<string>, user: UserInDb)
    returns (r: Result<ChatResponse, HttpError>)
    requires db.Valid() && db.HasRow(user)
    ensures chatId !in db.chats ==> r == Err(ChatNotFound(chatId))
    ensures chatId in db.chats && !Visible(db, user, chatId) ==> r == Err(NoPermission(ViewChatDenied))
    ensures r == Err(InternalError) <==>
      (Visible(db, user, chatId) &&
       (db.chats[chatId].ownerId !in db.users ||
        ("messages" in includes && !AuthorsPresent(ChatMessages(db.messages, chatId), db.users))))
    ensures r.Ok? <==>
      (Visible(db, user, chatId) && db.chats[chatId].ownerId in db.users &&
       ("messages" in includes ==> AuthorsPresent(ChatMessages(db.messages, chatId), db.users)))
    ensures r.Ok? ==>
      var chat, messages := db.chats[chatId], ChatMessages(db.messages, chatId);
      var members := ChatUserRows(db.users, db.links, chatId);
      && r.value.chat == ChatFromDb(chat, db.users[chat.ownerId])
      && r.value.meta == ChatMetadata(|messages|, |members|)
      && (r.value.messages.Some? <==> "messages" in includes)
      && (r.value.users.Some? <==> "users" in includes)
      && (r.value.messages.Some? ==> r.value.messages.value == MessagesFromDb(messages, db.users))
      && (r.value.users.Some? ==> r.value.users.value == UsersFromDb(members))
  {
    var g := UserGuard(db, user, chatId);
    if g != Allowed {
      return Err(GuardError(g, chatId));
    }
    var chat := db.GetChatById(chatId);
    if chat.Err? {
      return Err(ChatNotFound(chatId));
    }
    var messages := ChatMessages(db.messages, chatId);
    var includeMessages := "messages" in includes;
    if chat.value.ownerId !in db.users || (includeMessages && !AuthorsPresent(messages, db.users)) {
      return Err(InternalError);
    }
    var members := ChatUserRows(db.users, db.links, chatId);
    return Ok(ChatResponseFromDb(chat.value, db.users[chat.value.ownerId], messages, members,
                                 db.users, includeMessages, "users" in includes));
  }

  /** `update_chat`: 404 for a missing chat, 403 unless the caller owns it, else the rename. */
  method UpdateChat(db: Store, chatId: int, name: string, user: UserInDb) returns (r: Result<Chat, HttpError>)
    requires db.Valid() && db.HasRow(user)
    modifies db
    ensures db.Valid()
    ensures db.users == old(db.users) && db.messages == old(db.messages) && db.links == old(db.links)
    ensures chatId !in old(db.chats) ==> r == Err(ChatNotFound(chatId))
    ensures chatId in old(db.chats) && old(db.chats)[chatId].ownerId != user.id ==>
      r == Err(NoPermission(ViewChatDenied))
    ensures r.Err? ==> db.chats == old(db.chats)
    ensures r.Ok? <==> chatId in old(db.chats) && old(db.chats)[chatId].ownerId == user.id
    ensures r.Ok? ==> db.chats == old(db.chats)[chatId := old(db.chats)[chatId].(name := name)]
    ensures r.Ok? ==> r.value == ChatFromDb(db.chats[chatId], user) && r.value.name == name
  {
    var chat := db.GetChatById(chatId);
    if chat.Err? {
      return Err(ChatNotFound(chatId));
    }
    if chat.value.ownerId != user.id {
      return Err(NoPermission(ViewChatDenied));
    }
    var updated := db.UpdateChat(chatId, name);
    match updated
    case Ok(row) => return Ok(ChatFromDb(row, user));
    case Err(_) => return Err(ChatNotFound(chatId));
  }

  /** `get_chat_messages`: the guard, then the chat's messages in table order, counted. */
  method GetChatMessages(db: Store, chatId: int, user: UserInDb) returns (r: Result<MessageCollection, HttpError>)
    requires db.Valid() && db.HasRow(user)
    ensures chatId !in db.chats ==> r == Err(ChatNotFound(chatId))
    ensures chatId in db.chats && !Visible(db, user, chatId) ==> r == Err(NoPermission(ViewChatDenied))
    ensures r == Err(InternalError) <==>
      Visible(db, user, chatId) && !AuthorsPresent(ChatMessages(db.messages, chatId), db.users)
    ensures r.Ok? <==> Visible(db, user, chatId) && AuthorsPresent(ChatMessages(db.messages, chatId), db.users)
    ensures r.Ok? ==>
      var messages := ChatMessages(db.messages, chatId);
      && AuthorsPresent(messages, db.users)
      && r.value.meta.count == |r.value.messages| == |messages|
      && r.value.messages == MessagesFromDb(messages, db.users)
      && (forall i :: 0 <= i < |r.value.messages| ==> r.value.messages[i].chatId == chatId)
  {
    var g := UserGuard(db, user, chatId);
    if g != Allowed {
      return Err(GuardError(g, chatId));
    }
    var messages := ChatMessages(db.messages, chatId);
    if !AuthorsPresent(messages, db.users) {
      return Err(InternalError);
    }
    var out := MessagesFromDb(messages, db.users);
    assert forall i :: 0 <= i < |messages| ==> messages[i] in messages;
    return Ok(MessageCollection(Metadata(|out|), out));
  }

  /** `get_chat_users`: the guard, then the chat's users sorted by id, counted. */
  method GetChatUsers(db: Store, chatId: int, user: UserInDb) returns (r: Result<UserCollection, HttpError>)
    requires db.Valid() && db.HasRow(user)
    ensures chatId !in db.chats ==> r == Err(ChatNotFound(chatId))
    ensures chatId in db.chats && !Visible(db, user, chatId) ==> r == Err(NoPermission(ViewChatDenied))
    ensures r.Ok? <==> Visible(db, user, chatId)
    ensures r.Ok? ==> UserListing(r.value, ChatUserRows(db.users, db.links, chatId))
  {
    var g := UserGuard(db, user, chatId);
    if g != Allowed {
      return Err(GuardError(g, chatId));
    }
    var col := ListUsers(ChatUserRows(db.users, db.links, chatId));
    return Ok(col);
  }

  /** The users listed for a chat are exactly the stored users linked to it. */
  lemma ChatUsersAreLinkedUsers(
    col: UserCollection, users: map<int, UserInDb>, links: seq<UserChatLink>, chatId: int, u: User)
    requires UsersKeyed(users) && UserListing(col, ChatUserRows(users, links, chatId))
    ensures u in col.users <==>
      exists k :: k in users && UserChatLink(k, chatId) in links && u == UserFromDb(users[k])
  {
    var rows := ChatUserRows(users, links, chatId);
    UserListingHoldsExactly(col, rows, u);
    if exists k :: k in users && UserChatLink(k, chatId) in links && u == UserFromDb(users[k]) {
      var k :| k in users && UserChatLink(k, chatId) in links && u == UserFromDb(users[k]);
      assert users[k] in rows;
    }
  }

  // ---------------------------------------------------------------- messages

  /**
   * `create_chat_message`: the guard, then `create_message`. The guard admits
   * members only, so the message never adds a membership here.
   */
  method CreateChatMessage(
    db: Store, chatId: int, text: string, user: UserInDb, attempts: seq<Attempt>, now: Timestamp)
    returns (r: Result<Message, HttpError>)
    requires db.Valid() && db.HasRow(user)
    modifies db
    ensures db.Valid()
    ensures db.users == old(db.users) && db.chats == old(db.chats) && db.links == old(db.links)
    ensures chatId !in old(db.chats) ==> r == Err(ChatNotFound(chatId))
    ensures chatId in old(db.chats) && UserChatLink(user.id, chatId) !in old(db.links) ==>
      r == Err(NoPermission(ViewChatDenied))
    ensures chatId in old(db.chats) && UserChatLink(user.id, chatId) in old(db.links) ==>
      match RetryCommit(attempts, MessageIds(old(db.messages)))
      case Committed(id) => r.Ok? && r.value.id == id
      case _ => r == Err(InternalError)
    ensures r.Err? ==> db.messages == old(db.messages)
    ensures r.Ok? ==>
      var row := MessageInDb(r.value.id, text, user.id, chatId, now);
      && row.id !in MessageIds(old(db.messages))
      && db.messages == old(db.messages) + [row]
      && r.value == MessageFromDb(row, user)
  {
    var g := UserGuard(db, user, chatId);
    if g != Allowed {
      return Err(GuardError(g, chatId));
    }
    var created := db.CreateMessage(chatId, text, user, attempts, now);
    match created
    case Ok(row) => return Ok(MessageFromDb(row, user));
    case Err(e) => return Err(if e == NotFound then ChatNotFound(chatId) else InternalError);
  }

  /** The row with the id in the chat, as `get_msg_by_id` finds it. */
  function FoundMessage(messages: seq<MessageInDb>, chatId: int, msgId: int): (m: MessageInDb)
    requires UniqueMessageIds(messages) && InChat(messages, chatId, msgId)
    ensures m in messages && m.id == msgId && m.chatId == chatId
  {
    var k := IndexOfId(messages, msgId);
    ghost var i :| 0 <= i < |messages| && messages[i].id == msgId && messages[i].chatId == chatId;
    SameIdSameRow(messages, i, k);
    messages[k]
  }

  /** `update_message`: 404 unless the chat holds the message, 403 unless the caller wrote it. */
  method UpdateMessage(db: Store, chatId: int, msgId: int, text: string, user: UserInDb)
    returns (r: Result<Message, HttpError>)
    requires db.Valid() && db.HasRow(user)
    modifies db
    ensures db.Valid()
    ensures db.users == old(db.users) && db.chats == old(db.chats) && db.links == old(db.links)
    ensures !InChat(old(db.messages), chatId, msgId) ==> r == Err(ChatNotFound(chatId))
    ensures InChat(old(db.messages), chatId, msgId) && FoundMessage(old(db.messages), chatId, msgId).userId != user.id ==>
      r == Err(NoPermission(EditMessageDenied)) && InChat(db.messages, chatId, msgId)
    ensures r.Err? ==> db.messages == old(db.messages)
    ensures r.Ok? <==> InChat(old(db.messages), chatId, msgId) && FoundMessage(old(db.messages), chatId, msgId).userId == user.id
    ensures r.Ok? ==>
      var k := IndexOfId(old(db.messages), msgId);
      && 0 <= k
      && db.messages == old(db.messages)[k := old(db.messages)[k].(text := text)]
      && r.value == MessageFromDb(db.messages[k], user)
  {
    var found := db.GetMsgById(chatId, msgId);
    if found.Err? {
      return Err(ChatNotFound(chatId));
    }
    if found.value.userId != user.id {
      return Err(NoPermission(EditMessageDenied));
    }
    var updated := db.UpdateMsg(chatId, msgId, text);
    match updated
    case Ok(row) => return Ok(MessageFromDb(row, user));
    case Err(_) => return Err(ChatNotFound(chatId));
  }

  /** `delete_message`: the same checks as `update_message`, then the row leaves the table. */
  method DeleteMessage(db: Store, chatId: int, msgId: int, user: UserInDb) returns (e: Option<HttpError>)
    requires db.Valid() && db.HasRow(user)
    modifies db
    ensures db.Valid()
    ensures db.users == old(db.users) && db.chats == old(db.chats) && db.links == old(db.links)
    ensures !InChat(old(db.messages), chatId, msgId) ==> e == Some(ChatNotFound(chatId))
    ensures InChat(old(db.messages), chatId, msgId) && FoundMessage(old(db.messages), chatId, msgId).userId != user.id ==>
      e == Some(NoPermission(EditMessageDenied)) && InChat(db.messages, chatId, msgId)
    ensures e.Some? ==> db.messages == old(db.messages)
    ensures e.None? <==> InChat(old(db.messages), chatId, msgId) && FoundMessage(old(db.messages), chatId, msgId).userId == user.id
    ensures e.None? ==>
      var k := IndexOfId(old(db.messages), msgId);
      0 <= k && db.messages == old(db.messages)[..k] + old(db.messages)[k + 1..]
    ensures e.None? ==> forall i :: 0 <= i < |db.messages| ==> db.messages[i].id != msgId
  {
    var found := db.GetMsgById(chatId, msgId);
    if found.Err? {
      return Some(ChatNotFound(chatId));
    }
    if found.value.userId != user.id {
      return Some(NoPermission(EditMessageDenied));
    }
    var deleted := db.DeleteMsg(chatId, msgId);
    return if deleted.None? then None else Some(ChatNotFound(chatId));
  }
}
