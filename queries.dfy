/** The read-only resolvers: the `Query` fields, the `Chat` and `Message`
    field resolvers, and the SELECTs the mutations issue before they write.
    Each is a function of a database snapshot and the session's user
    (`currentUser`, `None` when the request is anonymous). */
module Queries {
  import opened Rows
  import opened Tables

  /** `currentUser` is signed in and has a `chats_users` row for `chatId`. */
  predicate IsMember(db: Db, chatId: ChatId, currentUser: Option<User>) {
    currentUser.Some? && Membership(chatId, currentUser.value.id) in db.chatsUsers
  }

  /** Query.me */
  function Me(currentUser: Option<User>): (r: Option<User>)
    ensures r.Some? <==> currentUser.Some?
    ensures r.Some? ==> r.value == currentUser.value
  {
    currentUser
  }

  /** Query.chats: the chats joined with the viewer's `chats_users` rows. */
  function Chats(db: Db, currentUser: Option<User>): (r: set<Chat>)
    ensures currentUser.None? ==> r == {}
    ensures forall c | c in r :: c in db.chats.Values && IsMember(db, c.id, currentUser)
    ensures forall c | c in db.chats.Values && IsMember(db, c.id, currentUser) :: c in r
  {
    if currentUser.None? then {}
    else set c | c in db.chats.Values && IsMember(db, c.id, currentUser)
  }

  /** Query.chat, and the SELECT that opens `removeChat`'s transaction: the
      chat, provided the viewer is one of its members. */
  function ChatById(db: Db, currentUser: Option<User>, chatId: ChatId): (r: Option<Chat>)
    ensures r.Some? <==> chatId in db.chats && IsMember(db, chatId, currentUser)
    ensures r.Some? ==> r.value == db.chats[chatId]
  {
    if currentUser.Some? && chatId in db.chats && IsMember(db, chatId, currentUser)
    then Some(db.chats[chatId])
    else None
  }

  /** Query.users: everybody but the viewer. */
  function Users(db: Db, currentUser: Option<User>): (r: set<User>)
    ensures currentUser.None? ==> r == {}
    ensures forall u | u in r :: currentUser.Some? && u in db.users.Values && u.id != currentUser.value.id
    ensures currentUser.Some? ==> forall u | u in db.users.Values && u.id != currentUser.value.id :: u in r
  {
    if currentUser.None? then {}
    else set u | u in db.users.Values && u.id != currentUser.value.id
  }

  /** Chat.participants: the users with a `chats_users` row for the chat
      (no check of the viewer). */
  function Participants(db: Db, chatId: ChatId): (r: set<User>)
    ensures forall u | u in r :: u in db.users.Values && Membership(chatId, u.id) in db.chatsUsers
    ensures forall u | u in db.users.Values && Membership(chatId, u.id) in db.chatsUsers :: u in r
  {
    set u | u in db.users.Values && Membership(chatId, u.id) in db.chatsUsers
  }

  /** Chat.messages: every message stored under the chat (no check of the viewer). */
  function ChatMessages(db: Db, chatId: ChatId): (r: set<Message>)
    ensures forall m | m in r :: m in db.messages.Values && m.chatId == chatId
    ensures forall m | m in db.messages.Values && m.chatId == chatId :: m in r
  {
    set m | m in db.messages.Values && m.chatId == chatId
  }

  /** The rows of the query shared by Chat.name and Chat.picture: the chat's
      participants other than the viewer. */
  function OtherParticipants(db: Db, viewerId: UserId, chatId: ChatId): set<User> {
    set u | u in db.users.Values && u.id != viewerId && Membership(chatId, u.id) in db.chatsUsers
  }

  /** `rows[0]` of that query: the rows come in no stated order, so this is
      some other participant, if there is one. */
  ghost function SomeOtherParticipant(db: Db, viewerId: UserId, chatId: ChatId): (r: Option<User>)
    ensures r.None? <==> OtherParticipants(db, viewerId, chatId) == {}
    ensures r.Some? ==> r.value in OtherParticipants(db, viewerId, chatId)
  {
    var others := OtherParticipants(db, viewerId, chatId);
    if others == {} then None else var u :| u in others; Some(u)
  }

  /** Chat.name: the other participant's name; null when anonymous or alone. */
  ghost function ChatName(db: Db, currentUser: Option<User>, chatId: ChatId): (r: Option<string>)
    ensures r.Some? <==> currentUser.Some? && OtherParticipants(db, currentUser.value.id, chatId) != {}
    ensures r.Some? ==> exists u :: u in OtherParticipants(db, currentUser.value.id, chatId) && u.name == r.value
  {
    if currentUser.None? then None
    else match SomeOtherParticipant(db, currentUser.value.id, chatId)
      case None => None
      case Some(u) => Some(u.name)
  }

  /** Chat.picture as the source has it: the debug line that prints
      `participant.picture` runs before the `participant &&` guard, so a
      chat without another participant throws. `photo` is the random-photo
      service's answer, `None` when that call fails (the failure is logged
      and swallowed). */
  ghost function ChatPictureAsWritten(db: Db, currentUser: Option<User>, chatId: ChatId, photo: Option<string>): (r: Result<Option<string>>)
    ensures r.Err? <==> currentUser.Some? && OtherParticipants(db, currentUser.value.id, chatId) == {}
    ensures r.Ok? ==> r.value == ChatPicture(db, currentUser, chatId, photo)
  {
    if currentUser.None? then Ok(None)
    else match SomeOtherParticipant(db, currentUser.value.id, chatId)
      case None => Err(NoParticipant)
      case Some(u) => Ok(if u.picture != "" then Some(u.picture) else photo)
  }

  /** Chat.picture as its guard intends: the other participant's picture when
      it is set, otherwise the random photo; it never throws. */
  ghost function ChatPicture(db: Db, currentUser: Option<User>, chatId: ChatId, photo: Option<string>): (r: Option<string>)
    ensures currentUser.None? ==> r.None?
    ensures currentUser.Some? && OtherParticipants(db, currentUser.value.id, chatId) != {}
            && (forall u | u in OtherParticipants(db, currentUser.value.id, chatId) :: u.picture != "") ==>
      exists u :: u in OtherParticipants(db, currentUser.value.id, chatId) && r == Some(u.picture)
    ensures currentUser.Some? && r != photo ==>
      exists u :: u in OtherParticipants(db, currentUser.value.id, chatId) && u.picture != "" && r == Some(u.picture)
  {
    if currentUser.None? then None
    else match SomeOtherParticipant(db, currentUser.value.id, chatId)
      case None => photo
      case Some(u) => if u.picture != "" then Some(u.picture) else photo
  }

  /** Message.isMine: reads `currentUser.id` unguarded, so an anonymous
      viewer gets a TypeError. */
  function IsMine(m: Message, currentUser: Option<User>): (r: Result<bool>)
    ensures r.Err? <==> currentUser.None?
    ensures r.Ok? ==> (r.value <==> m.senderUserId == currentUser.value.id)
  {
    if currentUser.None? then Err(NoCurrentUser)
    else Ok(m.senderUserId == currentUser.value.id)
  }

  /** The SELECT with which `addChat` looks for a chat the two users already
      share: chats with a membership row for each of them. */
  function ExistingChats(db: Db, currentUserId: UserId, recipientId: UserId): (r: set<Chat>)
    ensures forall c | c in r ::
      c in db.chats.Values && Membership(c.id, currentUserId) in db.chatsUsers && Membership(c.id, recipientId) in db.chatsUsers
    ensures forall c | c in db.chats.Values && Membership(c.id, currentUserId) in db.chatsUsers
                       && Membership(c.id, recipientId) in db.chatsUsers :: c in r
  {
    set c | c in db.chats.Values
            && Membership(c.id, currentUserId) in db.chatsUsers
            && Membership(c.id, recipientId) in db.chatsUsers
  }

  /** `SELECT * FROM users WHERE username = ...` returns a row. */
  predicate UsernameInUse(db: Db, username: string)
    ensures UsernameInUse(db, username) <==> exists u :: u in db.users.Values && u.username == username
  {
    exists id | id in db.users :: db.users[id].username == username
  }
}
