# Pony Express messaging backend: a verified model of its data-access and authorisation core

Pony Express is a messaging backend. It has users, chats with many-to-many
membership, and messages inside chats, all served over HTTP. This project
models the part with real invariants, in Dafny:

- **The store** (`database.dfy`, class `Database.Store`). It holds the four
  tables:
  - `users` and `chats`, maps keyed by their integer primary key;
  - `messages`, the messages table in insertion order;
  - `links`, the `user_chat_links` membership table.

  Its methods are the data-access functions. Lookups fail with `NotFound`
  (the source's `KeyError`). Renaming a chat and editing a message each change
  one field of one row. Deletions remove one row and cascade nowhere.
- **`create_message`'s retry loop.** Each pass re-reads the chat, draws a
  message id and appends the message. It also adds the author to the chat
  unless they are already a member, then commits. The loop retries only
  when the commit broke the uniqueness of `messages.id`.
- **The chats router** (`chats_router.dfy`):
  - the membership test `chat_has_user`;
  - `user_guard`, which resolves the chat before the permission check, so a
    missing chat is a 404 before any 403;
  - the owner check on renaming and the author check on editing or deleting
    a message;
  - the listings, filtered to the caller, sorted and counted.
- **The users router** (`users_router.dfy`): the full user list, one user,
  a user's chats, and the partial self-update.
- **What both routers share** (`listings.dfy`, module `Listings`): the
  HTTP errors, and the counted chat and user collections sorted the way
  both routers sort them (`chats.sort(key=lambda x: x.name)`,
  `users.sort(key=lambda x: x.id)`).
- **The entities** (`entities.py`, modelled in `entities.dfy`):
  - the key and uniqueness constraints: the composite key of the membership
    table, unique usernames and emails, and a global message id;
  - the `from_db` serialisers. The outward `User` has no password hash.
    `ChatResponse.from_db` counts the whole chat whatever the include flags
    are.
- **Python's `list.sort`** (`sorting.dfy`): string ordering and an insertion
  sort, proved to return a sorted permutation.

Conventions of the model:

- HTTP errors are the datatype `Listings.HttpError`. `EntityNotFound` is a
  404, `NoPermission` a 403, and `InternalError` an uncaught exception, which
  answers 500.
- The caller of an authenticated handler is a row of the users table:
  `db.HasRow(user)` is a precondition.
- A chat whose owner row was deleted, or a message whose author row was
  deleted, makes serialisation fail. The source would raise an
  `AttributeError` on the missing relationship; the model returns
  `InternalError`.
- Tables are scanned in ascending primary-key order, which is SQLite's rowid
  order for an integer primary key.
- The model keeps the messages table and the membership table in the order
  rows were inserted, and reads a chat's messages and users in that order.
  The source sets no order on these relationships and leaves it to the
  engine (see "Left out").

Two behaviours worth knowing:

- **A clashing username or email in `update_self`.** The handler does not
  catch the store's integrity error for a clashing username or email, so the
  request answers 500. The model answers `InternalError`.
- **A collision in `create_message`.** The loop's `continue`
  (`backend/database.py:166`) is meant to retry a colliding draw. It cannot,
  because nothing rolls the session back after the failed commit. The
  Findings section below records this. The rest of the model uses the
  intended loop.

## Model

| member | source | states |
|---|---|---|
| Entities.UniqueLinksAreASet | backend/entities.py:131-137 | with (user_id, chat_id) as the composite primary key, the membership table has as many distinct pairs as rows: membership is a set |
| Entities.SameIdSameRow | backend/entities.py:180 | messages.id is a global primary key: two positions that carry the same id are the same position |
| Entities.UserFromDb | backend/entities.py:9-19 | the outward user carries exactly the row's id, created_at, email and username |
| Entities.UserFromDbIgnoresPassword | backend/entities.py:9-19 | changing the password hash never changes the outward user |
| Entities.UserFromDbInjectiveOnPublicFields | backend/entities.py:9-19 | two rows serialise to the same user iff they agree on every field except the password hash |
| Entities.MessageFromDb | backend/entities.py:58-60 | copies id, chat_id, created_at and text, and embeds the author's outward user, whose id is the row's user_id |
| Entities.ChatFromDb | backend/entities.py:93-95 | copies id, name and created_at, and embeds the owner's outward user, whose id is owner_id |
| Entities.MessagesFromDb | backend/entities.py:114 | one outward message per row, in the same order: entry i is row i serialised, its id, text, chat_id and created_at carried over and its author looked up by user_id |
| Entities.ChatsFromDb | backend/routers/chats.py:47 | one outward chat per row, in the same order, each with its owner looked up by owner_id |
| Entities.UsersFromDb | backend/entities.py:116 | one outward user per row, in the same order |
| Entities.ChatResponseFromDb | backend/entities.py:105-117 | message_count and user_count are the lengths of the chat's messages and users; messages is present iff include_messages and users iff include_users, each list in chat order |
| Entities.ChatResponseMetaIgnoresFlags | backend/entities.py:107-112 | the counts and the chat are the same for every combination of include flags |
| Sorting.ChatByNameIsTotalPreorder | backend/routers/chats.py:48 | ordering chats by name with Python's string comparison is total and transitive, so sorting by it is well defined |
| Sorting.Insert | backend/routers/chats.py:48 | inserting into a sorted list keeps it sorted and adds exactly the element |
| Sorting.SortBy | backend/routers/users.py:23 | `list.sort(key=...)` returns a list sorted by the key that is a permutation of its input |
| Database.AllUsers | backend/database.py:35-42 | the users table read in full: each row once, in ascending id order, and nothing else |
| Database.AllChats | backend/database.py:99-106 | the chats table read in full: each row once, in ascending id order, and nothing else |
| Database.ChatMessages | backend/entities.py:172 | a chat's messages are exactly the rows of the messages table whose chat_id is the chat |
| Database.ChatMessagesAppend | backend/database.py:154 | a message appended to the model's table comes last among its chat's messages, after all the earlier ones |
| Database.ChatUserRows | backend/entities.py:168-171 | a chat's users are exactly the stored rows that a membership link joins to the chat; under the composite key of the membership table (`user_id`, `chat_id`, backend/entities.py:136-137) each appears once |
| Database.MemberRowIffLink | backend/database.py:93 | the session's row of a user is among a chat's users iff a membership link joins them |
| Database.ChatsWithMember | backend/database.py:93 | the chats kept are exactly those among the input that link to the user |
| Database.ChatsContaining | backend/database.py:93 | the `user in chat.users` filter over the chats keeps exactly the chats that link to the user, in scan order |
| Database.WithId | backend/database.py:180 | the candidate search returns exactly the rows that carry the id |
| Database.IndexOfIdLocates | backend/database.py:180-187 | with unique ids, the row that carries an id is the one at the position the id is found |
| Database.CommitVerdict | backend/database.py:158-165 | a commit goes through iff there is no store fault and the id is fresh; it fails with the duplicate-id error iff the only problem is that the id is taken |
| Database.RetryCommit | backend/database.py:151-169 | the loop commits a fresh id taken from the draws, fails only if some pass has a store fault, and runs out of draws only if every draw was taken |
| Database.RetryCommitFirstDecisive | backend/database.py:158-169 | after any number of clean collisions, the next pass decides the loop: a store fault ends it with the failure, which is re-raised rather than retried, and a fresh id is committed |
| Database.RetryCommitSkipsCollisions | backend/database.py:158-166 | passes that collide on a taken id are skipped: the outcome is that of the remaining draws |
| Database.RetryCommitAsWritten | backend/database.py:158-166 | the loop as written decides on its first draw alone: a fresh, fault-free draw is committed, and any failed commit on that draw, a collision included, ends it with the failure |
| Database.CollisionThenFreshDraw | backend/database.py:158-166 | a collision followed by a fresh draw commits the fresh id in the intended loop and fails in the loop as written |
| Database.CollidingDrawsBothCommit | backend/database.py:150-169 | two messages whose draws collide both land, with distinct ids |
| Database.Store.constructor | backend/entities.py:131-187 | a store opens over tables that satisfy the key and uniqueness constraints |
| Database.Store.GetUserById | backend/database.py:61-72 | returns the stored row with the id iff one exists, else NotFound |
| Database.Store.DeleteUser | backend/database.py:75-82 | removes that user's row only; memberships and messages that refer to it stay |
| Database.Store.GetUserChats | backend/database.py:85-93 | NotFound iff the user is absent; otherwise exactly the stored chats linked to the user, in ascending id order |
| Database.Store.SaveUser | backend/routers/users.py:43-45 | the commit of a changed user row succeeds iff no other user has its username or email; success writes the row, failure leaves the table |
| Database.Store.GetChatById | backend/database.py:109-120 | returns the stored chat with the id iff one exists, else NotFound |
| Database.Store.UpdateChat | backend/database.py:123-137 | NotFound for an absent chat with nothing changed; otherwise only that chat's name changes, and every other field and row stays |
| Database.Store.DeleteChat | backend/database.py:140-147 | removes that chat's row only; its messages and memberships stay |
| Database.Store.Commit | backend/database.py:154-159 | the commit's verdict follows from the fault and the id's freshness; a failed commit changes nothing; a successful one appends the message, and the author's link when asked |
| Database.Store.CreateMessage | backend/database.py:150-169 | NotFound iff the chat is absent; otherwise the outcome is the retry loop's. The committed message has the drawn fresh id, the chat, the author and the text, and is appended last. The author is a member afterwards, and a link that already existed is not added again. A duplicate id never surfaces as an error, and every error leaves the store unchanged |
| Database.Store.GetMsgById | backend/database.py:172-187 | returns a row whose id and chat_id both match iff the chat holds a message with the id; NotFound when no row has the id or none of them is in the chat |
| Database.Store.UpdateMsg | backend/database.py:190-205 | NotFound first via the lookup; otherwise only that message's text changes |
| Database.Store.DeleteMsg | backend/database.py:208-218 | NotFound first via the lookup; otherwise exactly that row leaves the table and no row with the id remains |
| ChatsRouter.ChatNotFound | backend/routers/chats.py:59-66 | the 404 names the entity "Chat" and the requested chat id |
| ChatsRouter.ChatHasUser | backend/routers/chats.py:26-30 | true iff some member of the chat has the user's id |
| ChatsRouter.ChatHasUserIffLink | backend/routers/chats.py:26-30 | for a user that has a row, the membership test holds iff a membership link joins the user and the chat |
| ChatsRouter.MemberChats | backend/routers/chats.py:47 | the `chat_has_user` filter keeps exactly the chats that link to the caller, in scan order |
| ChatsRouter.GuardError | backend/routers/chats.py:38-41 | a missing chat becomes the chat's 404; a non-member becomes the 403 "requires permission to view chat" |
| ChatsRouter.UserGuard | backend/routers/chats.py:33-41 | reports a missing chat iff the chat is absent, checked before membership; allows iff the chat exists and links to the caller |
| Listings.ChatListingHoldsExactly | backend/routers/chats.py:46-50 | a sorted listing of chat rows holds exactly their serialised chats |
| ChatsRouter.MemberChatListing | backend/routers/chats.py:46-50 | the chats listed for a user are exactly the stored chats linked to that user |
| Listings.ListChats | backend/routers/chats.py:47-50 | the serialised chats sorted by name, a permutation of the rows' serialisations, with count equal to the length; a missing owner is a 500 |
| ChatsRouter.GetChats | backend/routers/chats.py:44-50 | the caller's chats, sorted by name, with count equal to the length; a 500 iff one of them has lost its owner |
| ChatsRouter.GetChat | backend/routers/chats.py:53-66 | 404 for a missing chat, then 403 for a non-member. It succeeds exactly for a member whose chat serialises (the owner is stored and, when messages are included, every author is). Then it returns the chat, counts of all its messages and users, and the message and user lists exactly when `include` names them |
| ChatsRouter.UpdateChat | backend/routers/chats.py:69-89 | 404 for a missing chat, then 403 for a non-owner, both with the store unchanged; the owner's call renames the chat and changes nothing else |
| ChatsRouter.GetChatMessages | backend/routers/chats.py:92-107 | 404, then 403 as the guard decides; it succeeds exactly for a member whose chat's messages all have a stored author, and then returns all the chat's messages in the model's table order, with count equal to the length, each in the chat |
| Listings.UserListingHoldsExactly | backend/routers/chats.py:115-118 | a sorted listing of user rows holds exactly their outward users |
| Listings.ListUsers | backend/routers/chats.py:115-118 | the outward users sorted by id, a permutation of the rows' serialisations, with count equal to the length |
| ChatsRouter.GetChatUsers | backend/routers/chats.py:110-126 | 404, then 403 as the guard decides; otherwise the chat's users sorted by id with count equal to the length |
| ChatsRouter.ChatUsersAreLinkedUsers | backend/routers/chats.py:115-118 | the users listed for a chat are exactly the stored users linked to it |
| ChatsRouter.CreateChatMessage | backend/routers/chats.py:129-141 | 404 for a missing chat, then 403 for a non-member, and neither creates a message. A member's message is the retry loop's fresh id, appended last. Memberships never change here, because the guard admits members only |
| ChatsRouter.FoundMessage | backend/database.py:180-187 | the row found for a message id in a chat carries that id and that chat |
| ChatsRouter.UpdateMessage | backend/routers/chats.py:144-165 | 404 naming the chat unless the chat holds the message, then 403 unless the caller wrote it; the message is then unchanged and still retrievable. Otherwise only its text changes |
| ChatsRouter.DeleteMessage | backend/routers/chats.py:168-187 | 404 naming the chat unless the chat holds the message, then 403 unless the caller wrote it, with the message unchanged and still retrievable; otherwise exactly that row is removed |
| UsersRouter.GetUsers | backend/routers/users.py:19-25 | every user, sorted by id, as a permutation of the users table, with count equal to the number of users |
| UsersRouter.GetUsersListsEveryUser | backend/routers/users.py:21-25 | a user is listed iff it is the outward view of a stored row |
| UsersRouter.GetUsersIdsAscend | backend/routers/users.py:21-23 | since ids are unique, the listed ids are strictly ascending |
| UsersRouter.NoRepeatedId | backend/routers/users.py:23 | a sorted permutation of a list with ascending ids never repeats an id |
| UsersRouter.GetUser | backend/routers/users.py:50-62 | the user's outward view iff the user exists, else a 404 naming "User" and the id |
| UsersRouter.GetUserChats | backend/routers/users.py:65-84 | 404 for an absent user; otherwise that user's chats sorted by name with count equal to the length, and a 500 iff one of them has lost its owner |
| UsersRouter.ApplyUserUpdate | backend/routers/users.py:38-41 | username changes only when provided and email only when provided; every other field stays |
| UsersRouter.EmptyUpdateKeepsRow | backend/routers/users.py:38-41 | an update that provides no field leaves the row unchanged |
| UsersRouter.UpdateSelf | backend/routers/users.py:34-47 | writes the update over the caller's row iff no other user holds the new username or email, and returns its outward view; a clash is a 500 with the table unchanged |

## Left out

- Authentication is not part of this model: `backend/auth`, `get_current_user` and token handling. The caller is a row of the users table.
- The engine and session machinery (`create_engine`, `get_session`, `create_db_and_tables`) are not modelled. The store is maps and sequences.
- `create_user`, `get_self`, `main.py` (bootstrapping, CORS, the landing page) and the whole frontend are not modelled.
- `randint` and `datetime.now()` are parameters. Message ids come from a sequence of draws in 1..100000000. Timestamps are given, never interpreted.
- Database.Store.CreateMessage: the source retries without bound. The model stops with `RetriesExhausted` when the supplied draws run out, and the handler answers 500.
- Database.Store.Commit: the error-message substring test is modelled as a typed verdict. A store fault stands for every other commit failure.
- Database.Store.Commit: a failed commit leaves the store unchanged, as a rolled-back transaction would. The source does not roll back; see Findings.
- Sorting.SortBy: stability is not claimed. Chats with equal names may be listed in either order.
- ChatsRouter.UpdateMessage: `message_id` is a string in the source (backend/routers/chats.py:145) and an integer here; the string-to-integer comparison in the query is not modelled.
- ChatsRouter.DeleteMessage: `message_id` is a string in the source (backend/routers/chats.py:169) and an integer here.
- UsersRouter.GetUser: `user_id` is a string in the source (backend/routers/users.py:51) and an integer here. A non-numeric id such as "abc" gets a 404 echoing "abc" in the source and has no counterpart in the model.
- UsersRouter.GetUserChats: `user_id` is a string in the source (backend/routers/users.py:66) and an integer here, with the same consequence for non-numeric ids as for `get_user`.
- Database.Store.GetUserById: `user_id` is a string in the source (backend/database.py:61) and an integer here.
- Database.Store.DeleteUser: `user_id` is a string in the source (backend/database.py:75) and an integer here.
- Database.Store.GetUserChats: `user_id` is a string in the source (backend/database.py:85) and an integer here.
- Database.Store.GetMsgById: `msg_id` is a string in the source (backend/database.py:172) and an integer here.
- Database.Store.UpdateMsg: `message_id` is a string in the source (backend/database.py:190) and an integer here.
- Database.Store.DeleteMsg: `message_id` is a string in the source (backend/database.py:208) and an integer here.
- Database.Store.DeleteUser: the model removes the row as a committed change. The source runs the DELETE (backend/database.py:82) without committing, and the session is closed at the end of the request (backend/database.py:27-29), which would discard it; no shown caller commits.
- Database.Store.DeleteChat: the model removes the row as a committed change. The source runs the DELETE (backend/database.py:147) without committing, with the same consequence as for `delete_user`.
- Database.ChatMessages: the model lists a chat's messages in the order rows were inserted. The relationship at backend/entities.py:172 has no ordering, so the engine decides. SQLite would likely scan by the integer primary key, that is ascending message id, and ids are random draws. "Appended last" (Database.ChatMessagesAppend, Database.Store.CreateMessage) therefore holds for the model's table, not necessarily for the list `get_chat_messages` returns.
- Database.ChatUserRows: the model lists a chat's users in the order membership links were inserted. The relationship at backend/entities.py:168-171 has no ordering. This affects the unsorted users list of `get_chat` (ChatsRouter.GetChat); `get_chat_users` sorts by id.
- ChatsRouter.GetChatMessages: returns the messages in the order of Database.ChatMessages, so it inherits the ordering choice above.
- Entities.ChatResponseFromDb: the messages and users lists it embeds come from Database.ChatMessages and Database.ChatUserRows, so they inherit the ordering choices above; the counts do not depend on order.
- Delete operations cascade nowhere, as the DELETE statements in the source do not. Dangling memberships are dropped from `chat.users` by the join. Dangling authors and owners make serialisation a 500.
- Concurrency between requests is not modelled: every operation runs alone against the store.
- Status codes other than 404/403/500, and the exact JSON error payloads, are reduced to the `HttpError` datatype.

## Findings

| source | as written | input that shows it | evidently intended | confidence | as-written member | corrected member |
|---|---|---|---|---|---|---|
| backend/database.py:158-166 | after a failed commit the session is never rolled back, so the next pass's `get_chat_by_id` raises a pending-rollback error instead of drawing again; a message-id collision surfaces as a 500 | the first draw is an id already in the messages table, with no other fault, and the second draw is fresh | a collision is retried with a fresh draw until a commit succeeds | medium, not executed | Database.RetryCommitAsWritten (exhibited by Database.CollisionThenFreshDraw) | Database.RetryCommit |
