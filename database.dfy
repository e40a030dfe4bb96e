/**
 * The data-access layer: an in-memory store with the four tables, and the
 * lookups, updates, deletions and the message-creation retry loop that the
 * handlers call. A lookup of a single row fails with NotFound when there is
 * no such row.
 */
module Database {
  import opened Wrappers
  import opened Entities

  /** The range `randint(1, 100000000)` draws message ids from. */
  const MinMessageId: int := 1
  const MaxMessageId: int := 100_000_000

  type MessageIdDraw = x: int | MinMessageId <= x <= MaxMessageId witness MinMessageId

  /**
   * One pass of the retry loop as the outside world decides it: the id that
   * was drawn, and whether the store fails the commit for a reason other than
   * a duplicate message id (a lock, a full disk, another constraint).
   */
  datatype Attempt = Attempt(id: MessageIdDraw, storeFault: bool)

  datatype DbError =
    | NotFound            // the row asked for does not exist (KeyError)
    | DuplicateMessageId  // the commit broke the uniqueness of messages.id
    | UniqueViolation     // the commit broke the uniqueness of users.username or users.email
    | StoreFailure        // any other failure of the commit
    | RetriesExhausted    // the draws ran out before a commit succeeded

  /** What the retry loop of `create_message` ends with. */
  datatype RetryOutcome = Committed(id: int) | CommitFailed | Exhausted

  // ---------------------------------------------------------------- the tables' invariant

  predicate TablesValid(
    users: map<int, UserInDb>, chats: map<int, ChatInDb>,
    messages: seq<MessageInDb>, links: seq<UserChatLink>)
  {
    && UsersKeyed(users) && UniqueUsernames(users) && UniqueEmails(users)
    && ChatsKeyed(chats)
    && UniqueMessageIds(messages)
    && UniqueLinks(links)
  }

  // ---------------------------------------------------------------- table scans

  function MessageIds(messages: seq<MessageInDb>): set<int> {
    set m | m in messages :: m.id
  }

  /** A set that is not empty has a member. */
  lemma NonEmptyHasMember(s: set<int>)
    ensures s == {} || exists w :: w in s
  {
    if forall w :: w !in s {
      assert forall w :: w in s <==> w in {};
    }
  }

  lemma {:induction false} MinExists(s: set<int>)
    requires s != {}
    ensures exists m :: m in s && forall x :: x in s ==> m <= x
    decreases |s|
  {
    NonEmptyHasMember(s);
    var x :| x in s;
    if s != {x} {
      MinExists(s - {x});
      var y :| y in s - {x} && forall z :: z in s - {x} ==> y <= z;
      var m := if y < x then y else x;
      forall z | z in s ensures m <= z {
        if z != x {
          assert z in s - {x};
        }
      }
    }
  }

  function Min(s: set<int>): (m: int)
    requires s != {}
    ensures m in s && forall x :: x in s ==> m <= x
  {
    MinExists(s);
    var m :| m in s && forall x :: x in s ==> m <= x;
    m
  }

  /** The keys of a table in ascending order: SQLite scans an integer primary key by rowid. */
  function AscendingKeys(s: set<int>): (r: seq<int>)
    ensures |r| == |s|
    ensures forall k :: k in s <==> k in r
    ensures forall i, j :: 0 <= i < j < |r| ==> r[i] < r[j]
    decreases |s|
  {
    if s == {} then []
    else
      var m := Min(s);
      [m] + AscendingKeys(s - {m})
  }

  /** The rows stored under the given keys, in the keys' order. */
  function RowsAt<V>(table: map<int, V>, keys: seq<int>): (r: seq<V>)
    requires forall i :: 0 <= i < |keys| ==> keys[i] in table
    ensures |r| == |keys|
    ensures forall i :: 0 <= i < |r| ==> r[i] == table[keys[i]]
  {
    seq(|keys|, i requires 0 <= i < |keys| && keys[i] in table => table[keys[i]])
  }

  /** Reading a table in ascending key order yields each of its rows once. */
  lemma ScanCoversTable<V>(table: map<int, V>)
    ensures var r := RowsAt(table, AscendingKeys(table.Keys));
      |r| == |table| && forall v :: v in r <==> v in table.Values
  {
  }

  /** `select(UserInDB)`: every user once, in ascending id order. */
  function AllUsers(users: map<int, UserInDb>): (r: seq<UserInDb>)
    requires UsersKeyed(users)
    ensures |r| == |users|
    ensures forall i, j :: 0 <= i < j < |r| ==> r[i].id < r[j].id
    ensures forall u :: u in r <==> u in users.Values
  {
    ScanCoversTable(users);
    RowsAt(users, AscendingKeys(users.Keys))
  }

  /** `select(ChatInDB)`: every chat once, in ascending id order. */
  function AllChats(chats: map<int, ChatInDb>): (r: seq<ChatInDb>)
    requires ChatsKeyed(chats)
    ensures |r| == |chats|
    ensures forall i, j :: 0 <= i < j < |r| ==> r[i].id < r[j].id
    ensures forall c :: c in r <==> c in chats.Values
  {
    ScanCoversTable(chats);
    RowsAt(chats, AscendingKeys(chats.Keys))
  }

  // ---------------------------------------------------------------- relationships

  /** `chat.messages`: the chat's rows of the messages table, in table order. */
  function ChatMessages(messages: seq<MessageInDb>, chatId: int): (r: seq<MessageInDb>)
    ensures |r| <= |messages|
    ensures forall m :: m in r <==> m in messages && m.chatId == chatId
    decreases |messages|
  {
    if messages == [] then []
    else
      var init, last := messages[..|messages| - 1], messages[|messages| - 1];
      assert messages == init + [last];
      ChatMessages(init, chatId) + (if last.chatId == chatId then [last] else [])
  }

  /** A row added to the messages table comes last among its chat's messages. */
  lemma ChatMessagesAppend(messages: seq<MessageInDb>, m: MessageInDb, chatId: int)
    ensures ChatMessages(messages + [m], chatId)
         == ChatMessages(messages, chatId) + (if m.chatId == chatId then [m] else [])
  {
  }

  /**
   * `chat.users`: the users the membership table links to the chat, in
   * link order; a link to a deleted user joins no row.
   */
  function ChatUserRows(users: map<int, UserInDb>, links: seq<UserChatLink>, chatId: int): (r: seq<UserInDb>)
    requires UsersKeyed(users)
    ensures |r| <= |links|
    ensures forall u :: u in r <==> u.id in users && users[u.id] == u && UserChatLink(u.id, chatId) in links
    ensures UniqueLinks(links) ==> forall i, j :: 0 <= i < j < |r| ==> r[i] != r[j]
    decreases |links|
  {
    if links == [] then []
    else
      var init, last := links[..|links| - 1], links[|links| - 1];
      assert links == init + [last];
      assert UniqueLinks(links) ==> UniqueLinks(init) && last !in init;
      ChatUserRows(users, init, chatId)
        + (if last.chatId == chatId && last.userId in users then [users[last.userId]] else [])
  }

  /** The session's row of a user is among a chat's users exactly when a link joins them. */
  lemma MemberRowIffLink(users: map<int, UserInDb>, links: seq<UserChatLink>, u: UserInDb, chatId: int)
    requires UsersKeyed(users) && u.id in users && users[u.id] == u
    ensures u in ChatUserRows(users, links, chatId) <==> UserChatLink(u.id, chatId) in links
  {
  }

  /** The chats among `rows` whose membership includes the user, in the order of `rows`. */
  function ChatsWithMember(rows: seq<ChatInDb>, links: seq<UserChatLink>, userId: int): (r: seq<ChatInDb>)
    ensures |r| <= |rows|
    ensures forall c :: c in r <==> c in rows && UserChatLink(userId, c.id) in links
    decreases |rows|
  {
    if rows == [] then []
    else
      var init, last := rows[..|rows| - 1], rows[|rows| - 1];
      assert rows == init + [last];
      ChatsWithMember(init, links, userId)
        + (if UserChatLink(userId, last.id) in links then [last] else [])
  }

  lemma ChatsWithMemberAppend(rows: seq<ChatInDb>, c: ChatInDb, links: seq<UserChatLink>, userId: int)
    ensures ChatsWithMember(rows + [c], links, userId)
         == ChatsWithMember(rows, links, userId) + (if UserChatLink(userId, c.id) in links then [c] else [])
  {
  }

  /** `[chat for chat in chats if user in chat.users]` */
  method ChatsContaining(all: seq<ChatInDb>, users: map<int, UserInDb>, links: seq<UserChatLink>, user: UserInDb)
    returns (found: seq<ChatInDb>)
    requires UsersKeyed(users) && user.id in users && users[user.id] == user
    ensures found == ChatsWithMember(all, links, user.id)
  {
    found := [];
    var i := 0;
    while i < |all|
      invariant 0 <= i <= |all|
      invariant found == ChatsWithMember(all[..i], links, user.id)
    {
      assert all[..i + 1] == all[..i] + [all[i]];
      ChatsWithMemberAppend(all[..i], all[i], links, user.id);
      MemberRowIffLink(users, links, user, all[i].id);
      if user in ChatUserRows(users, links, all[i].id) {
        found := found + [all[i]];
      }
      i := i + 1;
    }
    assert all[..|all|] == all;
  }

  /** `select(MessageInDB).where(MessageInDB.id == msg_id).all()`. */
  function WithId(messages: seq<MessageInDb>, msgId: int): (r: seq<MessageInDb>)
    ensures forall m :: m in r <==> m in messages && m.id == msgId
    decreases |messages|
  {
    if messages == [] then []
    else
      var init, last := messages[..|messages| - 1], messages[|messages| - 1];
      assert messages == init + [last];
      WithId(init, msgId) + (if last.id == msgId then [last] else [])
  }

  /** The position of the row with the given id, or -1 when there is none. */
  function IndexOfId(messages: seq<MessageInDb>, msgId: int): (k: int)
    ensures -1 <= k < |messages|
    ensures 0 <= k ==> messages[k].id == msgId
    ensures k == -1 <==> forall i :: 0 <= i < |messages| ==> messages[i].id != msgId
  {
    if messages == [] then -1
    else if messages[0].id == msgId then 0
    else
      var k := IndexOfId(messages[1..], msgId);
      if k == -1 then -1 else k + 1
  }

  /** A row of the chat carries the id. */
  predicate InChat(messages: seq<MessageInDb>, chatId: int, msgId: int) {
    exists i :: 0 <= i < |messages| && messages[i].id == msgId && messages[i].chatId == chatId
  }

  /** With unique ids, the row that carries an id is the one IndexOfId finds. */
  lemma IndexOfIdLocates(messages: seq<MessageInDb>, m: MessageInDb)
    requires UniqueMessageIds(messages) && m in messages
    ensures 0 <= IndexOfId(messages, m.id) && messages[IndexOfId(messages, m.id)] == m
  {
  }

  // ---------------------------------------------------------------- the commit and the retry loop

  /** How the store answers a commit that inserts a message with id `id`. */
  function CommitVerdict(storeFault: bool, id: int, used: set<int>): (e: Option<DbError>)
    ensures e.None? <==> !storeFault && id !in used
    ensures e == Some(DuplicateMessageId) <==> !storeFault && id in used
  {
    if storeFault then Some(StoreFailure)
    else if id in used then Some(DuplicateMessageId)
    else None
  }

  /**
   * The retry loop of `create_message` on a store whose message ids are
   * `used`: a duplicate id is retried with the next draw, any other failure
   * ends the loop, and so does the first commit that goes through.
   */
  function RetryCommit(attempts: seq<Attempt>, used: set<int>): (o: RetryOutcome)
    ensures o.Committed? ==> o.id !in used && exists k :: 0 <= k < |attempts| && attempts[k].id == o.id
    ensures o.CommitFailed? ==> exists k :: 0 <= k < |attempts| && attempts[k].storeFault
    ensures o.Exhausted? ==> forall k :: 0 <= k < |attempts| ==> attempts[k].id in used
    decreases |attempts|
  {
    if attempts == [] then Exhausted
    else
      match CommitVerdict(attempts[0].storeFault, attempts[0].id, used)
      case None => Committed(attempts[0].id)
      case Some(DuplicateMessageId) =>
        var o := RetryCommit(attempts[1..], used);
        assert forall k :: 0 <= k < |attempts| - 1 ==> attempts[1..][k] == attempts[k + 1];
        o
      case Some(_) => CommitFailed
  }

  /** Skipping draws that collide does not change what the loop ends with. */
  lemma {:induction false} RetryCommitSkipsCollisions(attempts: seq<Attempt>, used: set<int>, k: nat)
    requires k <= |attempts|
    requires forall j :: 0 <= j < k ==> !attempts[j].storeFault && attempts[j].id in used
    ensures RetryCommit(attempts, used) == RetryCommit(attempts[k..], used)
  {
    if k > 0 {
      assert attempts[1..][k - 1..] == attempts[k..];
      RetryCommitSkipsCollisions(attempts[1..], used, k - 1);
    }
  }

  /**
   * The pass that first draws something other than a clean collision decides
   * the loop: a store fault ends it with the failure, a fresh id is committed.
   */
  lemma {:induction false} RetryCommitFirstDecisive(attempts: seq<Attempt>, used: set<int>, k: nat)
    requires k < |attempts|
    requires forall j :: 0 <= j < k ==> !attempts[j].storeFault && attempts[j].id in used
    ensures attempts[k].storeFault ==> RetryCommit(attempts, used) == CommitFailed
    ensures !attempts[k].storeFault && attempts[k].id !in used ==>
      RetryCommit(attempts, used) == Committed(attempts[k].id)
  {
    RetryCommitSkipsCollisions(attempts, used, k);
    assert attempts[k..][0] == attempts[k];
  }

  /**
   * The loop as the source writes it: after a failed commit the session is
   * never rolled back, so the next pass's `get_chat_by_id` fails on the
   * pending rollback instead of drawing again.
   */
  function RetryCommitAsWritten(attempts: seq<Attempt>, used: set<int>): (o: RetryOutcome)
    ensures o.Committed? ==> |attempts| > 0 && o.id == attempts[0].id && o.id !in used
    ensures attempts != [] && CommitVerdict(attempts[0].storeFault, attempts[0].id, used).Some? ==>
      o == CommitFailed
    ensures attempts != [] && CommitVerdict(attempts[0].storeFault, attempts[0].id, used).None? ==>
      o == Committed(attempts[0].id)
    ensures attempts == [] ==> o == Exhausted
  {
    if attempts == [] then Exhausted
    else
      match CommitVerdict(attempts[0].storeFault, attempts[0].id, used)
      case None => Committed(attempts[0].id)
      case Some(_) => CommitFailed
  }

  /** A single collision followed by a fresh draw: the intended loop commits, the loop as written fails. */
  lemma CollisionThenFreshDraw(used: set<int>, a0: Attempt, a1: Attempt)
    requires !a0.storeFault && a0.id in used
    requires !a1.storeFault && a1.id !in used
    ensures RetryCommit([a0, a1], used) == Committed(a1.id)
    ensures RetryCommitAsWritten([a0, a1], used) == CommitFailed
  {
  }

  /**
   * Two messages whose draws collide both land: the second call retries past
   * the id the first one took and commits a different id.
   */
  lemma {:induction false} CollidingDrawsBothCommit(used: set<int>, first: Attempt, second: seq<Attempt>)
    requires !first.storeFault && first.id !in used
    requires |second| == 2 && second[0].id == first.id && !second[0].storeFault
    requires !second[1].storeFault && second[1].id !in used + {first.id}
    ensures RetryCommit([first], used) == Committed(first.id)
    ensures RetryCommit(second, used + {first.id}) == Committed(second[1].id)
    ensures second[1].id != first.id
  {
  }

  // ---------------------------------------------------------------- the store

  class Store {
    var users: map<int, UserInDb>
    var chats: map<int, ChatInDb>
    /** The messages table, in the order rows were inserted. */
    var messages: seq<MessageInDb>
    /** The user_chat_links table, in the order rows were inserted. */
    var links: seq<UserChatLink>

    ghost predicate Valid()
      reads this
    {
      TablesValid(users, chats, messages, links)
    }

    /** The row the session holds for this user is the stored one. */
    ghost predicate HasRow(u: UserInDb)
      reads this
    {
      u.id in users && users[u.id] == u
    }

    /** Opens a store over existing tables. */
    constructor (users: map<int, UserInDb>, chats: map<int, ChatInDb>,
                 messages: seq<MessageInDb>, links: seq<UserChatLink>)
      requires TablesValid(users, chats, messages, links)
      ensures Valid()
      ensures this.users == users && this.chats == chats
      ensures this.messages == messages && this.links == links
    {
      this.users := users;
      this.chats := chats;
      this.messages := messages;
      this.links := links;
    }

    // ------------------------------------------------------------ users

    method GetUserById(userId: int) returns (r: Result<UserInDb, DbError>)
      requires Valid()
      ensures r.Ok? <==> userId in users
      ensures r.Ok? ==> r.value.id == userId && HasRow(r.value)
      ensures r.Err? ==> r.error == NotFound
    {
      if userId in users {
        return Ok(users[userId]);
      }
      return Err(NotFound);
    }

    /** Removes the row only: memberships and messages that refer to it stay. */
    method DeleteUser(userId: int)
      requires Valid()
      modifies this
      ensures Valid()
      ensures users == old(users) - {userId}
      ensures chats == old(chats) && messages == old(messages) && links == old(links)
    {
      users := users - {userId};
    }

    /** The user's chats: NotFound for an unknown user, else the chats that link to them. */
    method GetUserChats(userId: int) returns (r: Result<seq<ChatInDb>, DbError>)
      requires Valid()
      ensures r.Err? <==> userId !in users
      ensures r.Err? ==> r.error == NotFound
      ensures r.Ok? ==> r.value == ChatsWithMember(AllChats(chats), links, userId)
      ensures r.Ok? ==> forall c :: c in r.value <==> c in chats.Values && UserChatLink(userId, c.id) in links
    {
      var user := GetUserById(userId);
      if user.Err? {
        return Err(NotFound);
      }
      var found := ChatsContaining(AllChats(chats), users, links, user.value);
      return Ok(found);
    }

    /** No other user already has the row's username or email. */
    predicate NoClash(row: UserInDb)
      reads this
    {
      forall k :: k in users && k != row.id ==> users[k].username != row.username && users[k].email != row.email
    }

    /** Writes back a changed user row; the unique columns are checked at commit. */
    method SaveUser(row: UserInDb) returns (e: Option<DbError>)
      requires Valid() && row.id in users
      modifies this
      ensures Valid()
      ensures e.None? <==> old(NoClash(row))
      ensures e.Some? ==> e.value == UniqueViolation && users == old(users)
      ensures e.None? ==> users == old(users)[row.id := row]
      ensures chats == old(chats) && messages == old(messages) && links == old(links)
    {
      if !NoClash(row) {
        return Some(UniqueViolation);
      }
      users := users[row.id := row];
      return None;
    }

    // ------------------------------------------------------------ chats

    method GetChatById(chatId: int) returns (r: Result<ChatInDb, DbError>)
      requires Valid()
      ensures r.Ok? <==> chatId in chats
      ensures r.Ok? ==> r.value.id == chatId && r.value == chats[chatId]
      ensures r.Err? ==> r.error == NotFound
    {
      if chatId in chats {
        return Ok(chats[chatId]);
      }
      return Err(NotFound);
    }

    /** Renames a chat; nothing else in the store changes. */
    method UpdateChat(chatId: int, name: string) returns (r: Result<ChatInDb, DbError>)
      requires Valid()
      modifies this
      ensures Valid()
      ensures r.Ok? <==> chatId in old(chats)
      ensures r.Err? ==> r.error == NotFound && chats == old(chats)
      ensures r.Ok? ==> r.value == old(chats)[chatId].(name := name)
      ensures r.Ok? ==> chats == old(chats)[chatId := r.value]
      ensures users == old(users) && messages == old(messages) && links == old(links)
    {
      var chat := GetChatById(chatId);
      if chat.Err? {
        return chat;
      }
      var renamed := chat.value.(name := name);
      chats := chats[chatId := renamed];
      return Ok(renamed);
    }

    /** Removes the row only: its messages and memberships stay. */
    method DeleteChat(chatId: int)
      requires Valid()
      modifies this
      ensures Valid()
      ensures chats == old(chats) - {chatId}
      ensures users == old(users) && messages == old(messages) && links == old(links)
    {
      chats := chats - {chatId};
    }

    // ------------------------------------------------------------ messages

    /**
     * The transaction of one pass of `create_message`: insert the message and,
     * when `join`, the author's membership. A failed commit leaves the store
     * as it was.
     */
    method Commit(msg: MessageInDb, join: bool, storeFault: bool) returns (e: Option<DbError>)
      requires Valid()
      requires join ==> UserChatLink(msg.userId, msg.chatId) !in links
      modifies this
      ensures Valid()
      ensures e == CommitVerdict(storeFault, msg.id, MessageIds(old(messages)))
      ensures users == old(users) && chats == old(chats)
      ensures e.Some? ==> messages == old(messages) && links == old(links)
      ensures e.None? ==> messages == old(messages) + [msg]
      ensures e.None? ==> links == old(links) + (if join then [UserChatLink(msg.userId, msg.chatId)] else [])
    {
      e := CommitVerdict(storeFault, msg.id, MessageIds(messages));
      if e.None? {
        assert forall i :: 0 <= i < |messages| ==> messages[i].id in MessageIds(messages);
        messages := messages + [msg];
        if join {
          links := links + [UserChatLink(msg.userId, msg.chatId)];
        }
      }
    }

    /**
     * `create_message`: re-read the chat, draw an id, append the message,
     * add the author to the chat unless already a member, and commit; retry
     * with the next draw only when the commit broke the uniqueness of the
     * message id.
     */
    method CreateMessage(chatId: int, text: string, author: UserInDb, attempts: seq<Attempt>, now: Timestamp)
      returns (r: Result<MessageInDb, DbError>)
      requires Valid() && HasRow(author)
      modifies this
      ensures Valid()
      ensures users == old(users) && chats == old(chats)
      ensures r == Err(NotFound) <==> chatId !in old(chats)
      ensures chatId in old(chats) ==>
        match RetryCommit(attempts, MessageIds(old(messages)))
        case Exhausted => r == Err(RetriesExhausted)
        case CommitFailed => r == Err(StoreFailure)
        case Committed(id) => r == Ok(MessageInDb(id, text, author.id, chatId, now))
      ensures r.Err? ==> r.error != DuplicateMessageId
      ensures r.Err? ==> messages == old(messages) && links == old(links)
      ensures r.Ok? ==> r.value.id !in MessageIds(old(messages))
      ensures r.Ok? ==> messages == old(messages) + [r.value]
      ensures r.Ok? ==> links == if UserChatLink(author.id, chatId) in old(links) then old(links)
                                 else old(links) + [UserChatLink(author.id, chatId)]
      ensures r.Ok? ==> UserChatLink(author.id, chatId) in links
    {
      ghost var used := MessageIds(messages);
      var k := 0;
      while true
        invariant 0 <= k <= |attempts|
        invariant Valid() && HasRow(author)
        invariant users == old(users) && chats == old(chats)
        invariant messages == old(messages) && links == old(links)
        invariant RetryCommit(attempts, used) == RetryCommit(attempts[k..], used)
        decreases |attempts| - k
      {
        var chat := GetChatById(chatId);
        if chat.Err? {
          return Err(NotFound);
        }
        if k == |attempts| {
          return Err(RetriesExhausted);
        }
        var msg := MessageInDb(attempts[k].id, text, author.id, chat.value.id, now);
        var join := author !in ChatUserRows(users, links, chatId);
        var e := Commit(msg, join, attempts[k].storeFault);
        assert attempts[k..][1..] == attempts[k + 1..];
        if e == Some(DuplicateMessageId) {
          k := k + 1;
          continue;
        }
        if e.Some? {
          return Err(e.value);
        }
        return Ok(msg);
      }
    }

    /**
     * `get_msg_by_id`: find the rows with the id, then the first of them in
     * the chat; NotFound when no row has the id or none of them is in the chat.
     */
    method GetMsgById(chatId: int, msgId: int) returns (r: Result<MessageInDb, DbError>)
      requires Valid()
      ensures r.Ok? <==> InChat(messages, chatId, msgId)
      ensures r.Ok? ==> r.value.id == msgId && r.value.chatId == chatId
      ensures r.Ok? ==> 0 <= IndexOfId(messages, msgId) && r.value == messages[IndexOfId(messages, msgId)]
      ensures r.Err? ==> r.error == NotFound
    {
      var candidates := WithId(messages, msgId);
      if |candidates| == 0 {
        assert forall i :: 0 <= i < |messages| ==> messages[i] in messages;
        return Err(NotFound);
      }
      var i := 0;
      while i < |candidates|
        invariant 0 <= i <= |candidates|
        invariant forall j :: 0 <= j < i ==> candidates[j].chatId != chatId
      {
        if candidates[i].chatId == chatId {
          assert candidates[i] in candidates;
          IndexOfIdLocates(messages, candidates[i]);
          return Ok(candidates[i]);
        }
        i := i + 1;
      }
      assert forall j :: 0 <= j < |messages| && messages[j].id == msgId ==> messages[j] in candidates;
      return Err(NotFound);
    }

    /** `update_msg`: NotFound first; otherwise only that message's text changes. */
    method UpdateMsg(chatId: int, msgId: int, text: string) returns (r: Result<MessageInDb, DbError>)
      requires Valid()
      modifies this
      ensures Valid()
      ensures users == old(users) && chats == old(chats) && links == old(links)
      ensures r.Ok? <==> InChat(old(messages), chatId, msgId)
      ensures r.Err? ==> r.error == NotFound && messages == old(messages)
      ensures r.Ok? ==> 0 <= IndexOfId(old(messages), msgId)
      ensures r.Ok? ==> var k := IndexOfId(old(messages), msgId);
        && old(messages)[k].chatId == chatId
        && r.value == old(messages)[k].(text := text)
        && messages == old(messages)[k := r.value]
    {
      var found := GetMsgById(chatId, msgId);
      if found.Err? {
        return found;
      }
      var k := IndexOfId(messages, msgId);
      var updated := found.value.(text := text);
      messages := messages[k := updated];
      return Ok(updated);
    }

    /** `delete_msg`: NotFound first; otherwise exactly that row leaves the table. */
    method DeleteMsg(chatId: int, msgId: int) returns (e: Option<DbError>)
      requires Valid()
      modifies this
      ensures Valid()
      ensures users == old(users) && chats == old(chats) && links == old(links)
      ensures e.None? <==> InChat(old(messages), chatId, msgId)
      ensures e.Some? ==> e.value == NotFound && messages == old(messages)
      ensures e.None? ==> 0 <= IndexOfId(old(messages), msgId)
      ensures e.None? ==> var k := IndexOfId(old(messages), msgId);
        messages == old(messages)[..k] + old(messages)[k + 1..]
      ensures e.None? ==> forall i :: 0 <= i < |messages| ==> messages[i].id != msgId
    {
      var found := GetMsgById(chatId, msgId);
      if found.Err? {
        return Some(NotFound);
      }
      var k := IndexOfId(messages, msgId);
      ghost var before := messages;
      messages := messages[..k] + messages[k + 1..];
      forall i | 0 <= i < |messages| ensures messages[i].id != msgId {
        var j := if i < k then i else i + 1;
        assert messages[i] == before[j];
        if before[j].id == msgId { SameIdSameRow(before, j, k); }
      }
      return None;
    }
  }
}
