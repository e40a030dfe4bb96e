/**
 * The rows of the four tables (users, chats, messages, user_chat_links), the
 * key and uniqueness constraints declared on them, and the outward shapes the
 * API serialises (User, Message, Chat, ChatResponse and the collections).
 */
module Entities {
  import opened Wrappers

  /** A reading of the server clock; the model never interprets it. */
  type Timestamp = int

  // ---------------------------------------------------------------- rows

  datatype UserInDb = UserInDb(
    id: int,
    username: string,
    email: string,
    hashedPassword: string,
    createdAt: Timestamp)

  datatype ChatInDb = ChatInDb(id: int, name: string, ownerId: int, createdAt: Timestamp)

  datatype MessageInDb = MessageInDb(
    id: int,
    text: string,
    userId: int,
    chatId: int,
    createdAt: Timestamp)

  /** A row of the many-to-many membership table. */
  datatype UserChatLink = UserChatLink(userId: int, chatId: int)

  // ---------------------------------------------------------------- outward shapes

  /** The public view of a user: there is no field for the password hash. */
  datatype User = User(id: int, createdAt: Timestamp, email: string, username: string)

  datatype Message = Message(id: int, chatId: int, user: User, createdAt: Timestamp, text: string)

  datatype Chat = Chat(id: int, name: string, owner: User, createdAt: Timestamp)

  datatype ChatMetadata = ChatMetadata(messageCount: nat, userCount: nat)

  /** `messages` and `users` are None when they were not asked for. */
  datatype ChatResponse = ChatResponse(
    meta: ChatMetadata,
    chat: Chat,
    messages: Option<seq<Message>>,
    users: Option<seq<User>>)

  datatype Metadata = Metadata(count: nat)

  datatype UserCollection = UserCollection(meta: Metadata, users: seq<User>)

  datatype ChatCollection = ChatCollection(meta: Metadata, chats: seq<Chat>)

  datatype MessageCollection = MessageCollection(meta: Metadata, messages: seq<Message>)

  /** A self-update request; a field that is None was not provided. */
  datatype UserUpdate = UserUpdate(username: Option<string>, email: Option<string>)

  // ---------------------------------------------------------------- keys and uniqueness

  /** users.id is the primary key: every row is stored under its own id. */
  predicate UsersKeyed(users: map<int, UserInDb>) {
    forall k :: k in users ==> users[k].id == k
  }

  /** chats.id is the primary key. */
  predicate ChatsKeyed(chats: map<int, ChatInDb>) {
    forall k :: k in chats ==> chats[k].id == k
  }

  /** users.username is declared unique. */
  predicate UniqueUsernames(users: map<int, UserInDb>) {
    forall a, b :: a in users && b in users && a != b ==> users[a].username != users[b].username
  }

  /** users.email is declared unique. */
  predicate UniqueEmails(users: map<int, UserInDb>) {
    forall a, b :: a in users && b in users && a != b ==> users[a].email != users[b].email
  }

  /** messages.id is a primary key over the whole table, not per chat. */
  predicate UniqueMessageIds(messages: seq<MessageInDb>) {
    forall i, j :: 0 <= i < j < |messages| ==> messages[i].id != messages[j].id
  }

  /** (user_id, chat_id) is the composite primary key of the membership table. */
  predicate UniqueLinks(links: seq<UserChatLink>) {
    forall i, j :: 0 <= i < j < |links| ==> links[i] != links[j]
  }

  function LinkSet(links: seq<UserChatLink>): set<UserChatLink> {
    set l | l in links
  }

  /** Because of the composite key, the membership table holds a set of pairs. */
  lemma {:induction false} UniqueLinksAreASet(links: seq<UserChatLink>)
    requires UniqueLinks(links)
    ensures |LinkSet(links)| == |links|
  {
    if links != [] {
      var init, last := links[..|links| - 1], links[|links| - 1];
      assert links == init + [last];
      assert UniqueLinks(init);
      UniqueLinksAreASet(init);
      assert last !in init by {
        forall i | 0 <= i < |init| ensures init[i] != last {
          assert links[i] == init[i];
        }
      }
      assert LinkSet(links) == LinkSet(init) + {last};
    }
  }

  /** With unique message ids, one id names at most one row. */
  lemma SameIdSameRow(messages: seq<MessageInDb>, i: int, j: int)
    requires UniqueMessageIds(messages)
    requires 0 <= i < |messages| && 0 <= j < |messages|
    requires messages[i].id == messages[j].id
    ensures i == j
  {
  }

  // ---------------------------------------------------------------- serialisers

  /** User.from_db: the public fields of the row, and nothing else. */
  function UserFromDb(u: UserInDb): (r: User)
    ensures r.id == u.id && r.createdAt == u.createdAt
    ensures r.email == u.email && r.username == u.username
  {
    User(u.id, u.createdAt, u.email, u.username)
  }

  /** The password hash never reaches the outward user. */
  lemma UserFromDbIgnoresPassword(u: UserInDb, hash: string)
    ensures UserFromDb(u.(hashedPassword := hash)) == UserFromDb(u)
  {
  }

  /** Two rows serialise alike exactly when they agree on every field but the password hash. */
  lemma UserFromDbInjectiveOnPublicFields(a: UserInDb, b: UserInDb)
    ensures UserFromDb(a) == UserFromDb(b) <==> a.(hashedPassword := b.hashedPassword) == b
  {
  }

  /** Message.from_db: the row's fields, with the author embedded as a User. */
  function MessageFromDb(m: MessageInDb, author: UserInDb): (r: Message)
    requires author.id == m.userId
    ensures r.id == m.id && r.chatId == m.chatId && r.createdAt == m.createdAt && r.text == m.text
    ensures r.user == UserFromDb(author) && r.user.id == m.userId
  {
    Message(m.id, m.chatId, UserFromDb(author), m.createdAt, m.text)
  }

  /** Chat.from_db: the row's fields, with the owner embedded as a User. */
  function ChatFromDb(c: ChatInDb, owner: UserInDb): (r: Chat)
    requires owner.id == c.ownerId
    ensures r.id == c.id && r.name == c.name && r.createdAt == c.createdAt
    ensures r.owner == UserFromDb(owner) && r.owner.id == c.ownerId
  {
    Chat(c.id, c.name, UserFromDb(owner), c.createdAt)
  }

  /** Every message's author is a row of `users`. */
  predicate AuthorsPresent(messages: seq<MessageInDb>, users: map<int, UserInDb>) {
    forall i :: 0 <= i < |messages| ==> messages[i].userId in users
  }

  /** Message.from_db over a list of rows, in list order, authors looked up in `users`. */
  function MessagesFromDb(messages: seq<MessageInDb>, users: map<int, UserInDb>): (r: seq<Message>)
    requires UsersKeyed(users) && AuthorsPresent(messages, users)
    ensures |r| == |messages|
    ensures forall i :: 0 <= i < |r| ==> r[i] == MessageFromDb(messages[i], users[messages[i].userId])
  {
    seq(|messages|, i requires 0 <= i < |messages| && AuthorsPresent(messages, users) =>
      MessageFromDb(messages[i], users[messages[i].userId]))
  }

  /** Every chat's owner is a row of `users`. */
  predicate OwnersPresent(chats: seq<ChatInDb>, users: map<int, UserInDb>) {
    forall i :: 0 <= i < |chats| ==> chats[i].ownerId in users
  }

  /** Chat.from_db over a list of rows, in list order, owners looked up in `users`. */
  function ChatsFromDb(chats: seq<ChatInDb>, users: map<int, UserInDb>): (r: seq<Chat>)
    requires UsersKeyed(users) && OwnersPresent(chats, users)
    ensures |r| == |chats|
    ensures forall i :: 0 <= i < |r| ==> r[i] == ChatFromDb(chats[i], users[chats[i].ownerId])
  {
    seq(|chats|, i requires 0 <= i < |chats| && OwnersPresent(chats, users) =>
      ChatFromDb(chats[i], users[chats[i].ownerId]))
  }

  /** User.from_db over a list of rows, in list order. */
  function UsersFromDb(users: seq<UserInDb>): (r: seq<User>)
    ensures |r| == |users|
    ensures forall i :: 0 <= i < |r| ==> r[i].id == users[i].id && r[i] == UserFromDb(users[i])
  {
    seq(|users|, i requires 0 <= i < |users| => UserFromDb(users[i]))
  }

  /**
   * ChatResponse.from_db: the counts always describe the whole chat; the
   * message and user lists are present exactly when asked for, in chat order.
   * The message authors are looked up in `authors` only when the messages are
   * included.
   */
  function ChatResponseFromDb(
    chat: ChatInDb, owner: UserInDb, messages: seq<MessageInDb>, members: seq<UserInDb>,
    authors: map<int, UserInDb>, includeMessages: bool, includeUsers: bool): (r: ChatResponse)
    requires owner.id == chat.ownerId
    requires includeMessages ==> UsersKeyed(authors) && AuthorsPresent(messages, authors)
    ensures r.chat == ChatFromDb(chat, owner)
    ensures r.meta.messageCount == |messages| && r.meta.userCount == |members|
    ensures r.messages.Some? <==> includeMessages
    ensures r.users.Some? <==> includeUsers
    ensures includeMessages ==> r.messages.value == MessagesFromDb(messages, authors)
    ensures includeUsers ==> r.users.value == UsersFromDb(members)
  {
    var response := ChatResponse(
      ChatMetadata(|messages|, |members|), ChatFromDb(chat, owner), None, None);
    var withMessages :=
      if includeMessages then response.(messages := Some(MessagesFromDb(messages, authors)))
      else response;
    if includeUsers then withMessages.(users := Some(UsersFromDb(members))) else withMessages
  }

  /** The include flags change which lists are present, never the counts or the chat. */
  lemma ChatResponseMetaIgnoresFlags(
    chat: ChatInDb, owner: UserInDb, messages: seq<MessageInDb>, members: seq<UserInDb>,
    authors: map<int, UserInDb>, m1: bool, u1: bool, m2: bool, u2: bool)
    requires owner.id == chat.ownerId
    requires UsersKeyed(authors) && AuthorsPresent(messages, authors)
    ensures ChatResponseFromDb(chat, owner, messages, members, authors, m1, u1).meta
         == ChatResponseFromDb(chat, owner, messages, members, authors, m2, u2).meta
    ensures ChatResponseFromDb(chat, owner, messages, members, authors, m1, u1).chat
         == ChatResponseFromDb(chat, owner, messages, members, authors, m2, u2).chat
  {
  }
}
