/** The mutations: the tables and the published events held in one object,
    changed statement by statement as the resolvers change them. */
module Store {
  import opened Rows
  import opened Tables
  import opened Queries
  import opened Properties

  class ChatStore {
    var users: map<UserId, User>
    var chats: map<ChatId, Chat>
    var chatsUsers: set<Membership>
    var messages: map<MessageId, Message>

    /** Every payload passed to `pubsub.publish`, oldest first. */
    var events: seq<Event>

    /** The next values of the sequences behind the serial `id` columns. A
        successful INSERT draws one; ROLLBACK does not give it back. */
    var nextUserId: nat
    var nextChatId: nat
    var nextMessageId: nat

    /** The four tables as one value. */
    function Tables(): Db
      reads this
    {
      Db(users, chats, chatsUsers, messages)
    }

    /** Rows sit under their own ids, every id (also those in `chats_users`)
        was drawn from its sequence, usernames are unique, and two distinct
        users share at most one chat. */
    ghost predicate Valid()
      reads this
    {
      && Tables().WellKeyed()
      && Tables().UniqueUsernames()
      && (forall id | id in users :: id < nextUserId)
      && (forall id | id in chats :: id < nextChatId)
      && (forall m | m in chatsUsers :: m.chatId < nextChatId)
      && (forall id | id in messages :: id < nextMessageId)
      && (forall x, y | x != y :: |ExistingChats(Tables(), x, y)| <= 1)
    }

    /** An empty database and no events; serial ids start at 1. */
    constructor ()
      ensures Valid()
      ensures Tables() == Db(map[], map[], {}, map[]) && events == []
    {
      users, chats, chatsUsers, messages := map[], map[], {}, map[];
      events := [];
      nextUserId, nextChatId, nextMessageId := 1, 1, 1;
    }

    /** ROLLBACK: the tables return to what they were at BEGIN. */
    method Rollback(atBegin: Db)
      modifies this`users, this`chats, this`chatsUsers, this`messages
      ensures Tables() == atBegin
    {
      users, chats, chatsUsers, messages := atBegin.users, atBegin.chats, atBegin.chatsUsers, atBegin.messages;
    }

    /** Mutation.addChat. `now` is the database clock, `fault` the statement
        the database rejects, if it runs. */
    method AddChat(currentUser: Option<User>, recipientId: UserId, now: Timestamp, fault: Option<Statement>)
      returns (r: Result<Option<Chat>>)
      requires Valid()
      modifies this
      ensures Valid()
      ensures nextUserId == old(nextUserId) && nextMessageId == old(nextMessageId)
      // anonymous: null, nothing written or published
      ensures currentUser.None? ==>
        r == Ok(None) && Tables() == old(Tables()) && events == old(events) && nextChatId == old(nextChatId)
      // the duplicate check itself fails before any transaction
      ensures currentUser.Some? && fault == Some(FindExistingChat) ==>
        r == Err(Rejected(FindExistingChat)) && Tables() == old(Tables()) && events == old(events)
        && nextChatId == old(nextChatId)
      // the two users already share a chat: it is returned, nothing written or published
      ensures currentUser.Some? && fault != Some(FindExistingChat)
              && ExistingChats(old(Tables()), currentUser.value.id, recipientId) != {} ==>
        r.Ok? && r.value.Some? && r.value.value in ExistingChats(old(Tables()), currentUser.value.id, recipientId)
        && Tables() == old(Tables()) && events == old(events) && nextChatId == old(nextChatId)
      // a statement of the transaction fails: after ROLLBACK the tables are as
      // before, nothing is published, and the error is rethrown
      ensures currentUser.Some? && fault != Some(FindExistingChat)
              && ExistingChats(old(Tables()), currentUser.value.id, recipientId) == {}
              && fault.Some? && fault.value in {Begin, InsertChat, InsertCreatorMembership, InsertRecipientMembership, Commit} ==>
        r == Err(Rejected(fault.value)) && Tables() == old(Tables()) && events == old(events)
        && nextChatId == old(nextChatId) + (if fault.value in {Begin, InsertChat} then 0 else 1)
      // the transaction commits: one new chat, its two membership rows, one chatAdded event
      ensures currentUser.Some? && fault != Some(FindExistingChat)
              && ExistingChats(old(Tables()), currentUser.value.id, recipientId) == {}
              && !(fault.Some? && fault.value in {Begin, InsertChat, InsertCreatorMembership, InsertRecipientMembership, Commit}) ==>
        var c := Chat(old(nextChatId), now);
        && FreshChatId(old(Tables()), c.id)
        && r == Ok(Some(c))
        && Tables() == WithNewChat(old(Tables()), c, currentUser.value.id, recipientId)
        && events == old(events) + [ChatAdded(c)]
        && nextChatId == old(nextChatId) + 1
    {
      if currentUser.None? {
        return Ok(None);
      }
      var me := currentUser.value.id;
      if fault == Some(FindExistingChat) {
        return Err(Rejected(FindExistingChat));
      }
      var existing := ExistingChats(Tables(), me, recipientId);
      if existing != {} {
        var chat :| chat in existing;
        return Ok(Some(chat));
      }

      // BEGIN
      var atBegin := Tables();
      if fault == Some(Begin) || fault == Some(InsertChat) {
        Rollback(atBegin);
        return Err(Rejected(fault.value));
      }
      var chatAdded := Chat(nextChatId, now);
      chats := chats[chatAdded.id := chatAdded];
      nextChatId := nextChatId + 1;

      if fault == Some(InsertCreatorMembership) {
        Rollback(atBegin);
        return Err(Rejected(InsertCreatorMembership));
      }
      chatsUsers := chatsUsers + {Membership(chatAdded.id, me)};

      if fault == Some(InsertRecipientMembership) {
        Rollback(atBegin);
        return Err(Rejected(InsertRecipientMembership));
      }
      chatsUsers := chatsUsers + {Membership(chatAdded.id, recipientId)};

      if fault == Some(Commit) {
        Rollback(atBegin);
        return Err(Rejected(Commit));
      }
      // COMMIT, then publish
      events := events + [ChatAdded(chatAdded)];
      r := Ok(Some(chatAdded));
      forall x, y | x != y ensures |ExistingChats(Tables(), x, y)| <= 1 {
        AddChatKeepsOneChatPerPair(atBegin, chatAdded, me, recipientId, x, y);
      }
    }

    /** Mutation.removeChat. The event is published before COMMIT, so a
        failing COMMIT rolls the deletion back but not the event. */
    method RemoveChat(currentUser: Option<User>, chatId: ChatId, fault: Option<Statement>)
      returns (r: Result<Option<ChatId>>)
      requires Valid()
      modifies this
      ensures Valid()
      ensures nextUserId == old(nextUserId) && nextChatId == old(nextChatId) && nextMessageId == old(nextMessageId)
      // anonymous: null, nothing written or published
      ensures currentUser.None? ==>
        r == Ok(None) && Tables() == old(Tables()) && events == old(events)
      // BEGIN or the SELECT fails: rolled back, rethrown
      ensures currentUser.Some? && fault.Some? && fault.value in {Begin, SelectOwnedChat} ==>
        r == Err(Rejected(fault.value)) && Tables() == old(Tables()) && events == old(events)
      // no such chat, or the viewer is not in it: null, nothing changes
      ensures currentUser.Some? && !(fault.Some? && fault.value in {Begin, SelectOwnedChat})
              && ChatById(old(Tables()), currentUser, chatId).None? ==>
        r == Ok(None) && Tables() == old(Tables()) && events == old(events)
      // the viewer is a member
      ensures currentUser.Some? && !(fault.Some? && fault.value in {Begin, SelectOwnedChat})
              && ChatById(old(Tables()), currentUser, chatId).Some? ==>
        var target := ChatById(old(Tables()), currentUser, chatId).value;
        if fault == Some(DeleteChat) then
          r == Err(Rejected(DeleteChat)) && Tables() == old(Tables()) && events == old(events)
        else if fault == Some(Commit) then
          r == Err(Rejected(Commit)) && Tables() == old(Tables())
          && events == old(events) + [ChatRemoved(target.id, target)]
        else
          r == Ok(Some(chatId)) && Tables() == old(Tables()).DeleteChat(chatId)
          && events == old(events) + [ChatRemoved(target.id, target)]
    {
      if currentUser.None? {
        return Ok(None);
      }
      // BEGIN
      var atBegin := Tables();
      if fault == Some(Begin) || fault == Some(SelectOwnedChat) {
        Rollback(atBegin);
        return Err(Rejected(fault.value));
      }
      var found := ChatById(Tables(), currentUser, chatId);
      if found.None? {
        Rollback(atBegin);
        return Ok(None);
      }
      var chat := found.value;

      if fault == Some(DeleteChat) {
        Rollback(atBegin);
        return Err(Rejected(DeleteChat));
      }
      chats := chats - {chatId};

      events := events + [ChatRemoved(chat.id, chat)];

      if fault == Some(Commit) {
        Rollback(atBegin);
        return Err(Rejected(Commit));
      }
      // COMMIT
      r := Ok(Some(chatId));
      forall x, y | x != y ensures |ExistingChats(Tables(), x, y)| <= 1 {
        DeleteChatKeepsOneChatPerPair(atBegin, chatId, x, y);
      }
    }

    /** Mutation.addMessage. The sender's membership of `chatId` is not checked. */
    method AddMessage(currentUser: Option<User>, chatId: ChatId, content: string, now: Timestamp, fault: Option<Statement>)
      returns (r: Result<Option<Message>>)
      requires Valid()
      modifies this
      ensures Valid()
      ensures nextUserId == old(nextUserId) && nextChatId == old(nextChatId)
      // anonymous: null, nothing written or published
      ensures currentUser.None? ==>
        r == Ok(None) && Tables() == old(Tables()) && events == old(events) && nextMessageId == old(nextMessageId)
      // the INSERT fails: rethrown, nothing written or published
      ensures currentUser.Some? && fault == Some(InsertMessage) ==>
        r == Err(Rejected(InsertMessage)) && Tables() == old(Tables()) && events == old(events)
        && nextMessageId == old(nextMessageId)
      // one message row, the same row published and returned
      ensures currentUser.Some? && fault != Some(InsertMessage) ==>
        var m := Message(old(nextMessageId), chatId, currentUser.value.id, content, now);
        && m.id !in old(messages)
        && r == Ok(Some(m))
        && Tables() == old(Tables()).InsertMessage(m)
        && events == old(events) + [MessageAdded(m)]
        && nextMessageId == old(nextMessageId) + 1
    {
      if currentUser.None? {
        return Ok(None);
      }
      if fault == Some(InsertMessage) {
        return Err(Rejected(InsertMessage));
      }
      var messageAdded := Message(nextMessageId, chatId, currentUser.value.id, content, now);
      ghost var before := Tables();
      messages := messages[messageAdded.id := messageAdded];
      nextMessageId := nextMessageId + 1;

      events := events + [MessageAdded(messageAdded)];
      r := Ok(Some(messageAdded));
      forall x, y | x != y ensures |ExistingChats(Tables(), x, y)| <= 1 {
        SharedChatsReadOnlyChatTables(before, Tables(), x, y);
      }
    }

    /** Mutation.signUp, after the field-length checks. `passwordHash` is what
        bcrypt makes of `password`. */
    method SignUp(name: string, username: string, password: string, passwordConfirm: string,
                  passwordHash: string, fault: Option<Statement>)
      returns (r: Result<User>)
      requires Valid()
      modifies this
      ensures Valid()
      ensures events == old(events)
      ensures nextChatId == old(nextChatId) && nextMessageId == old(nextMessageId)
      ensures password != passwordConfirm ==>
        r == Err(PasswordMismatch) && Tables() == old(Tables()) && nextUserId == old(nextUserId)
      ensures password == passwordConfirm && fault.Some? && fault.value in {FindUserByName, InsertUser}
              && !(fault == Some(InsertUser) && UsernameInUse(old(Tables()), username)) ==>
        r == Err(Rejected(fault.value)) && Tables() == old(Tables()) && nextUserId == old(nextUserId)
      ensures password == passwordConfirm && fault != Some(FindUserByName) && UsernameInUse(old(Tables()), username) ==>
        r == Err(UsernameTaken) && Tables() == old(Tables()) && nextUserId == old(nextUserId)
      ensures password == passwordConfirm && !(fault.Some? && fault.value in {FindUserByName, InsertUser})
              && !UsernameInUse(old(Tables()), username) ==>
        var u := User(old(nextUserId), name, username, passwordHash, "");
        && u.id !in old(users)
        && r == Ok(u)
        && Tables() == old(Tables()).InsertUser(u)
        && nextUserId == old(nextUserId) + 1
    {
      if password != passwordConfirm {
        return Err(PasswordMismatch);
      }
      if fault == Some(FindUserByName) {
        return Err(Rejected(FindUserByName));
      }
      if UsernameInUse(Tables(), username) {
        return Err(UsernameTaken);
      }
      if fault == Some(InsertUser) {
        return Err(Rejected(InsertUser));
      }
      var user := User(nextUserId, name, username, passwordHash, "");
      ghost var before := Tables();
      users := users[user.id := user];
      nextUserId := nextUserId + 1;
      r := Ok(user);
      forall x, y | x != y ensures |ExistingChats(Tables(), x, y)| <= 1 {
        SharedChatsReadOnlyChatTables(before, Tables(), x, y);
      }
    }
  }
}
