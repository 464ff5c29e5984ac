# Chat store of a real-time chat server

A Dafny model of the resolvers of a GraphQL chat server (`schema/resolvers.ts`).
The server keeps four relational tables — `users`, `chats`, `chats_users`
(which user takes part in which chat) and `messages` — and publishes domain
events (`messageAdded`, `chatAdded`, `chatRemoved`) to subscribers. A
subscriber receives an event only if it is signed in and is a member of the
event's chat.

- `rows.dfy` (module `Rows`): table rows, event payloads, the SQL statements a
  mutation issues, and the `Option`/`Result` values resolvers return.
- `tables.dfy` (module `Tables`): the tables as one value `Db`, with one
  function per SQL write (`InsertChat`, `InsertMembership`, `DeleteChat`,
  `InsertMessage`, `InsertUser`).
- `queries.dfy` (module `Queries`): the read resolvers (`me`, `chats`, `chat`,
  `users`, `Chat.name`, `Chat.picture`, `Chat.participants`, `Chat.messages`,
  `Message.isMine`) and the SELECTs the mutations run before writing. Each is a
  function of a table snapshot and the session's user.
- `subscriptions.dfy` (module `Subscriptions`): the three subscription filters.
- `store.dfy` (module `Store`): class `ChatStore` holds the tables as fields
  plus the log of published events. Its methods `AddChat`, `RemoveChat`,
  `AddMessage` and `SignUp` change the fields one SQL statement at a time.
  BEGIN takes a snapshot of the tables, and `Rollback` puts it back.
- `properties.dfy` (module `Properties`): what each mutation's effect means for
  the reads and the filters.
- `scenarios.dfy` (module `Scenarios`): a client that walks one conversation
  through the store. It proves, from the contracts alone, who receives each
  event.

The session's user (`currentUser`) is an input; `None` means an anonymous request.
The database clock (`now`) is an input.
Database failures are an input too: `fault: Option<Statement>` names the
statement the database rejects, if that statement runs. This lets the
contracts state every ROLLBACK path.

The id columns are serial. The store keeps the next value of each sequence.
A successful INSERT draws a value, and ROLLBACK does not return it, as with
PostgreSQL sequences.

Three behaviours of the code that the model keeps as they are:
- `removeChat` publishes `chatRemoved` before COMMIT, so when COMMIT fails
  the event has already gone out (schema/resolvers.ts:358-363).
- `removeChat` deletes only the `chats` row. Its `chats_users` and `messages`
  rows stay, because no cascade is modelled.
- `Chat.picture` throws when the chat has no other participant
  (see Findings).

`ChatStore.Valid()` is the store's invariant. It also states that two
distinct users share at most one chat. This holds because `addChat` inserts
only when its duplicate check finds nothing.

## Model

| member | source | states |
|---|---|---|
| `Queries.Chats` | schema/resolvers.ts:171-183 | `[]` when anonymous; otherwise a chat is listed iff it is a `chats` row and the viewer has a `chats_users` row for it |
| `Queries.ChatById` | schema/resolvers.ts:185-197 | `chat(chatId)` returns a chat iff the `chats` row exists and the viewer is signed in and a member; the result is that row. `removeChat` uses the same SELECT (lines 340-345) |
| `Queries.Users` | schema/resolvers.ts:199-208 | `[]` when anonymous; otherwise exactly the users whose id differs from the viewer's |
| `Queries.Participants` | schema/resolvers.ts:152-161 | exactly the users with a `chats_users` row for the chat |
| `Queries.ChatMessages` | schema/resolvers.ts:132-139 | exactly the stored messages whose `chat_id` is the chat |
| `Queries.ExistingChats` | schema/resolvers.ts:287-292 | exactly the chats in which both users have a `chats_users` row |
| `Queries.UsernameInUse` | schema/resolvers.ts:246-249 | true iff some user row has this username |
| `Subscriptions.MessageAddedFilter` | schema/resolvers.ts:382-389 | true iff the subscriber is signed in and has a `chats_users` row for the message's chat |
| `Subscriptions.ChatAddedFilter` | schema/resolvers.ts:398-405 | true iff the subscriber is signed in and has a `chats_users` row for the added chat |
| `Subscriptions.ChatRemovedFilter` | schema/resolvers.ts:414-421 | true iff the subscriber is signed in and has a `chats_users` row for `targetChat.id` |
| `Queries.Me` | schema/resolvers.ts:165-169 | returns the session's user, and null for an anonymous request |
| `Queries.SomeOtherParticipant` | schema/resolvers.ts:62-68 | `rows[0]` of the "other participants" query: null exactly when the viewer is alone in the chat, otherwise one of the other members |
| `Queries.ChatName` | schema/resolvers.ts:58-71 | a name is returned iff the viewer is signed in and the chat has another participant, and it is the name of one such participant |
| `Queries.ChatPictureAsWritten` | schema/resolvers.ts:73-130 | as written, it throws iff a signed-in viewer has no other participant in the chat; otherwise it agrees with `ChatPicture` |
| `Queries.ChatPicture` | schema/resolvers.ts:86-129 | guarded form: null for anonymous viewers. When the chat has other participants and all their pictures are set, it returns the picture of one of them. Any value other than the photo-service answer is a non-empty picture of another participant |
| `Queries.IsMine` | schema/resolvers.ts:51-54 | throws iff there is no current user; otherwise true exactly when the viewer sent the message |
| `Subscriptions.DeliveredIffMember` | schema/resolvers.ts:373-425 | for all three topics, an event is delivered iff the subscriber is signed in and `(event chat id, subscriber id)` is in `chats_users`; for `chatRemoved` the id is `targetChat.id` |
| `Store.ChatStore.Rollback` | schema/resolvers.ts:328-331 | ROLLBACK restores all four tables to their state at BEGIN |
| `Store.ChatStore.AddChat` | schema/resolvers.ts:284-332 | anonymous: null and nothing changes. If a shared chat exists, it is returned and nothing is written or published. If any statement after BEGIN fails, the tables and the log are as before and the error is rethrown. On commit: exactly one fresh chat row and its two membership rows are added, and exactly one `chatAdded` event carries that chat |
| `Store.ChatStore.RemoveChat` | schema/resolvers.ts:334-370 | anonymous, not a member, or no such chat: null and nothing changes. BEGIN or SELECT fails: nothing changes, rethrown. Member: the chat row is deleted, `chatId` is returned, and one `chatRemoved` event carries the pre-deletion chat. A failing COMMIT rolls the deletion back but keeps that event |
| `Store.ChatStore.AddMessage` | schema/resolvers.ts:266-282 | anonymous: null and nothing changes. Otherwise one fresh message row with this `chatId`, the current user as sender and this content is added, published as `messageAdded` and returned; sender membership is not checked. A failing INSERT changes nothing |
| `Store.ChatStore.SignUp` | schema/resolvers.ts:235-264 | password mismatch, or a username already in use: an error and no write. Otherwise exactly one user row is added, with a fresh id, the hash and an empty picture. Usernames stay unique |
| `Properties.ChatsAgreesWithChatById` | schema/resolvers.ts:171-197 | `chats` lists a chat iff `chat(chat.id)` returns it; anonymous viewers get `[]` and null |
| `Properties.UsersAreEveryoneElse` | schema/resolvers.ts:199-208 | `users` is every user except the viewer, and `[]` when anonymous |
| `Properties.NewChatJoinsSharedChats` | schema/resolvers.ts:287-319 | after a committed addChat(a, b), the chats shared by x and y are the ones they shared before, plus the new chat exactly when {x, y} is within {a, b} |
| `Properties.AddChatThenFindsOnlyNewChat` | schema/resolvers.ts:287-297 | after addChat(a, b) commits, the duplicate check finds exactly the new chat for (a, b) and for (b, a), so a repeated addChat returns it and writes nothing |
| `Properties.ChatAddedReachesParticipants` | schema/resolvers.ts:394-408 | the `chatAdded` event for a new chat is delivered to exactly its creator and its recipient, and never to an anonymous subscriber |
| `Properties.AddChatListsNewChat` | schema/resolvers.ts:171-183 | after a committed addChat, the new chat joins the `chats` list of exactly its two participants; every other list is unchanged |
| `Properties.NewChatParticipantsAndName` | schema/resolvers.ts:152-161 | a new chat between two distinct users has exactly those two as participants, and each sees the other's name as the chat's name |
| `Properties.RemoveChatEffects` | schema/resolvers.ts:354-365 | after removal, `chat(chatId)` is null for everyone and the chat leaves every `chats` list. `chatRemoved` reaches exactly the chat's members, the remover included |
| `Properties.RolledBackRemovalStillNotifies` | schema/resolvers.ts:358-369 | after a COMMIT failure, the remover still lists the chat, yet the `chatRemoved` event already published is delivered to them |
| `Properties.AddMessageEffects` | schema/resolvers.ts:132-139 | the new message joins its own chat's `messages` and no other chat's; chat lists are unchanged; `messageAdded` reaches exactly the chat's members; `isMine` holds for its sender only |
| `Properties.NonMemberMessageReachesMembers` | schema/resolvers.ts:266-273 | for any database and any user with no `chats_users` row for a chat, a message they post to it is stored under that chat. It is delivered to exactly the chat's members, so never to its sender |
| `Properties.SignUpEffects` | schema/resolvers.ts:246-259 | a new user appears in the `users` list of every other viewer, and inserting a name not in use keeps usernames unique |
| `Properties.LoneChatPictureThrows` | schema/resolvers.ts:83-88 | when the viewer has no other participant in the chat, `Chat.picture` throws as written; the guarded form returns the photo-service answer |
| `Properties.SelfChatHasNoOtherParticipant` | schema/resolvers.ts:287-319 | when the viewer is in no chat yet and the database accepts the repeated (chat, viewer) row, addChat with oneself as recipient commits a chat whose only participant is the viewer, so the chat has no other participant |
| `Properties.AddChatKeepsOneChatPerPair` | schema/resolvers.ts:287-319 | a committed addChat(a, b) for a pair that shares no chat leaves every pair of distinct users with at most one shared chat |
| `Properties.DeleteChatKeepsOneChatPerPair` | schema/resolvers.ts:354-356 | deleting a chat row keeps every pair of distinct users at at most one shared chat |

## Left out

- `signIn`: it depends on bcrypt, JWT signing and an HTTP cookie.
- Password hashing: `SignUp` receives the hash as a parameter.
- `validateLength` and `validatePassword`: the validators module is not part of this model. `SignUp` starts after those checks.
- The random-photo request in `Chat.picture`: it is an HTTP call. Its answer is the parameter `photo`, and `None` means the call failed.
- `Chat.lastMessage`: its order depends on database-assigned `created_at` values.
- `Message.recipient`: its query does not join `users` with `chats_users`, so its result is not well defined.
- `Message.chat`, `Message.sender` and `Message.createdAt`: single-row lookups and a date conversion.
- The `Date` and `URL` scalars.
- Subscription mechanics: `withFilter`, `asyncIterator`, delivery order and concurrent subscribers. A filter is a predicate over a given table snapshot. The race between `addChat`'s duplicate check and its insert is not modelled. Neither is the timing of filters that read through a separate connection while `removeChat` is still uncommitted.
- Connection acquire/release and `console` logging.
- Cascading deletes: the schema is not part of this model. Deleting a chat leaves its `chats_users` and `messages` rows in place, as the code alone does.
- Duplicate rows in `chats_users`: the table is a set, so a repeated pair collapses. The schema's keys and foreign keys are not part of this model. A statement they would reject is represented by `fault`.
- Store.ChatStore.AddChat: an INSERT that fails draws no id from the sequence (PostgreSQL may consume one), and ROLLBACK itself (line 329) is assumed to succeed.
- Store.ChatStore.RemoveChat: ROLLBACK itself (lines 350 and 367) is assumed to succeed. If the one at line 350 failed, the source would throw where the model returns null.
- Failures of the read resolvers' own queries: reads are total functions.
- `app.ts` (Express wiring), `context.ts` (a type declaration) and the snapshot tests, which assert nothing beyond "no errors".

## Findings

| source | as written | input that shows it | evidently intended | confidence | as-written member | corrected member |
|---|---|---|---|---|---|---|
| schema/resolvers.ts:85-86 | `Chat.picture` logs `participant.picture` before the `participant && participant.picture` guard. With no other participant, it throws a TypeError | a signed-in viewer asks for the picture of a chat whose only `chats_users` row is theirs. One way to get there: a viewer who is in no chat yet calls `addChat` naming themself as recipient, and the database accepts the repeated (chat, viewer) row | fall through the guard to the random photo, and return null if that fails | high, not executed | `Queries.ChatPictureAsWritten`, `Properties.LoneChatPictureThrows` | `Queries.ChatPicture` |
