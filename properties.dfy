/** What the mutations' effects mean for the reads and for the subscription
    filters. Each lemma takes the tables before a mutation and states facts
    about the tables the mutation leaves (the methods of `Store.ChatStore`
    say which tables those are). */
module Properties {
  import opened Rows
  import opened Tables
  import opened Queries
  import opened Subscriptions

  /** Query.chats and Query.chat agree: a chat is listed exactly when
      looking it up by id returns it; anonymous viewers get neither. */
  lemma ChatsAgreesWithChatById(db: Db, currentUser: Option<User>, c: Chat)
    requires db.WellKeyed()
    ensures c in Chats(db, currentUser) <==> ChatById(db, currentUser, c.id) == Some(c)
    ensures currentUser.None? ==> Chats(db, currentUser) == {} && ChatById(db, currentUser, c.id) == None
  {
  }

  /** Query.users lists every user but the viewer. */
  lemma UsersAreEveryoneElse(db: Db, me: User)
    requires db.WellKeyed()
    requires me.id in db.users
    ensures Users(db, Some(me)) == db.users.Values - {db.users[me.id]}
    ensures Users(db, None) == {}
  {
  }

  /** After a committed addChat between `a` and `b`, the duplicate check
      finds exactly the new chat, whichever of the two asks: a second
      addChat for the pair returns it and writes nothing. */
  lemma {:induction false} AddChatThenFindsOnlyNewChat(db: Db, c: Chat, a: UserId, b: UserId)
    requires db.WellKeyed()
    requires FreshChatId(db, c.id)
    requires ExistingChats(db, a, b) == {}
    ensures ExistingChats(WithNewChat(db, c, a, b), a, b) == {c}
    ensures ExistingChats(WithNewChat(db, c, a, b), b, a) == {c}
  {
    NewChatJoinsSharedChats(db, c, a, b, a, b);
    NewChatJoinsSharedChats(db, c, a, b, b, a);
    assert ExistingChats(db, b, a) == ExistingChats(db, a, b);
  }

  /** The chats `x` and `y` share after addChat(`a`, `b`) commits: the ones
      they shared before, plus the new chat when {`x`, `y`} is {`a`, `b`}. */
  lemma {:induction false} NewChatJoinsSharedChats(db: Db, c: Chat, a: UserId, b: UserId, x: UserId, y: UserId)
    requires db.WellKeyed()
    requires FreshChatId(db, c.id)
    ensures ExistingChats(WithNewChat(db, c, a, b), x, y) ==
      ExistingChats(db, x, y) + (if (x == a || x == b) && (y == a || y == b) then {c} else {})
  {
    var db' := WithNewChat(db, c, a, b);
    forall d | d in ExistingChats(db', x, y)
      ensures d in ExistingChats(db, x, y) || (d == c && (x == a || x == b) && (y == a || y == b))
    {
      var k :| k in db'.chats && db'.chats[k] == d;
      if k != c.id {
        assert db.chats[k] == d;
      }
    }
    forall d | d in ExistingChats(db, x, y) ensures d in ExistingChats(db', x, y) {
      var k :| k in db.chats && db.chats[k] == d;
      assert db'.chats[k] == d;
    }
    assert db'.chats[c.id] == c;
  }

  /** The duplicate check reads only `chats` and `chats_users`. */
  lemma SharedChatsReadOnlyChatTables(db: Db, db': Db, x: UserId, y: UserId)
    requires db'.chats == db.chats && db'.chatsUsers == db.chatsUsers
    ensures ExistingChats(db', x, y) == ExistingChats(db, x, y)
  {
  }

  /** Two distinct users share at most one chat, and addChat keeps it so:
      it writes only when the pair shares none. */
  lemma {:induction false} AddChatKeepsOneChatPerPair(db: Db, c: Chat, a: UserId, b: UserId, x: UserId, y: UserId)
    requires db.WellKeyed()
    requires FreshChatId(db, c.id)
    requires ExistingChats(db, a, b) == {}
    requires |ExistingChats(db, x, y)| <= 1
    requires x != y
    ensures |ExistingChats(WithNewChat(db, c, a, b), x, y)| <= 1
  {
    NewChatJoinsSharedChats(db, c, a, b, x, y);
    if (x == a || x == b) && (y == a || y == b) {
      if x == b {
        assert y == a;
        forall d | d in ExistingChats(db, x, y) ensures d in ExistingChats(db, a, b) { }
      }
      assert ExistingChats(db, x, y) == {};
    }
  }

  /** Deleting a chat row only shrinks what the duplicate check finds, so a
      pair still shares at most one chat. */
  lemma {:induction false} DeleteChatKeepsOneChatPerPair(db: Db, id: ChatId, x: UserId, y: UserId)
    requires db.WellKeyed()
    requires |ExistingChats(db, x, y)| <= 1
    ensures |ExistingChats(db.DeleteChat(id), x, y)| <= 1
  {
    var db' := db.DeleteChat(id);
    forall d | d in ExistingChats(db', x, y) ensures d in ExistingChats(db, x, y) {
      var k :| k in db'.chats && db'.chats[k] == d;
      assert db.chats[k] == d;
    }
    SubsetNoLarger(ExistingChats(db', x, y), ExistingChats(db, x, y));
  }

  lemma {:induction false} SubsetNoLarger<T>(a: set<T>, b: set<T>)
    requires a <= b
    ensures |a| <= |b|
  {
    if a != {} {
      var e :| e in a;
      SubsetNoLarger(a - {e}, b - {e});
    }
  }

  /** A chatAdded event for the new chat reaches exactly its two
      participants, and never an anonymous subscriber. */
  lemma ChatAddedReachesParticipants(db: Db, c: Chat, a: UserId, b: UserId, subscriber: Option<User>)
    requires FreshChatId(db, c.id)
    ensures ChatAddedFilter(WithNewChat(db, c, a, b), c, subscriber) <==>
      subscriber.Some? && (subscriber.value.id == a || subscriber.value.id == b)
  {
  }

  /** The new chat is added to the chat list of its two participants and of
      no one else. */
  lemma {:induction false} AddChatListsNewChat(db: Db, c: Chat, a: UserId, b: UserId, currentUser: Option<User>)
    requires db.WellKeyed()
    requires FreshChatId(db, c.id)
    ensures Chats(WithNewChat(db, c, a, b), currentUser) ==
      if currentUser.Some? && (currentUser.value.id == a || currentUser.value.id == b)
      then Chats(db, currentUser) + {c}
      else Chats(db, currentUser)
  {
    var db' := WithNewChat(db, c, a, b);
    assert db'.chats.Values == db.chats.Values + {c} by {
      forall d | d in db'.chats.Values ensures d in db.chats.Values + {c} {
        var k :| k in db'.chats && db'.chats[k] == d;
        if k != c.id { assert db.chats[k] == d; }
      }
      forall d | d in db.chats.Values ensures d in db'.chats.Values {
        var k :| k in db.chats && db.chats[k] == d;
        assert db'.chats[k] == d;
      }
      assert db'.chats[c.id] == c;
    }
    forall d | d in db.chats.Values ensures d.id != c.id {
      var k :| k in db.chats && db.chats[k] == d;
    }
  }

  /** The new chat's participants are its creator and its recipient, and
      each of them sees the other's name as the chat's name. */
  lemma {:induction false} NewChatParticipantsAndName(db: Db, c: Chat, a: User, b: User)
    requires db.WellKeyed()
    requires FreshChatId(db, c.id)
    requires a.id in db.users && db.users[a.id] == a
    requires b.id in db.users && db.users[b.id] == b
    requires a.id != b.id
    ensures Participants(WithNewChat(db, c, a.id, b.id), c.id) == {a, b}
    ensures ChatName(WithNewChat(db, c, a.id, b.id), Some(a), c.id) == Some(b.name)
    ensures ChatName(WithNewChat(db, c, a.id, b.id), Some(b), c.id) == Some(a.name)
  {
    var db' := WithNewChat(db, c, a.id, b.id);
    forall u | u in db.users.Values && Membership(c.id, u.id) in db'.chatsUsers
      ensures u == a || u == b
    {
      var k :| k in db.users && db.users[k] == u;
    }
    assert a in db.users.Values && b in db.users.Values;
    assert OtherParticipants(db', a.id, c.id) == {b};
    assert OtherParticipants(db', b.id, c.id) == {a};
  }

  /** After removeChat commits, nobody can look the chat up any more and it
      leaves every chat list; the chatRemoved event, which names the chat
      through its pre-deletion snapshot, reaches exactly the chat's members,
      whose `chats_users` rows the deletion leaves in place. */
  lemma {:induction false} RemoveChatEffects(db: Db, remover: User, chatId: ChatId, target: Chat, currentUser: Option<User>)
    requires db.WellKeyed()
    requires ChatById(db, Some(remover), chatId) == Some(target)
    ensures ChatById(db.DeleteChat(chatId), currentUser, chatId) == None
    ensures Chats(db.DeleteChat(chatId), currentUser) == Chats(db, currentUser) - {target}
    ensures ChatRemovedFilter(db.DeleteChat(chatId), target, currentUser) <==> IsMember(db, chatId, currentUser)
    ensures ChatRemovedFilter(db.DeleteChat(chatId), target, Some(remover))
  {
    var db' := db.DeleteChat(chatId);
    assert target.id == chatId;
    forall d | d in Chats(db, currentUser) - {target} ensures d in Chats(db', currentUser) {
      var k :| k in db.chats && db.chats[k] == d;
      assert k != chatId;
      assert db'.chats[k] == d;
    }
    forall d | d in Chats(db', currentUser) ensures d != target {
      var k :| k in db'.chats && db'.chats[k] == d;
    }
  }

  /** A removeChat whose COMMIT fails still published chatRemoved: the
      tables are back as they were, the remover still sees the chat, and the
      event is delivered to the remover all the same. */
  lemma RolledBackRemovalStillNotifies(db: Db, remover: User, chatId: ChatId, target: Chat)
    requires db.WellKeyed()
    requires ChatById(db, Some(remover), chatId) == Some(target)
    ensures target in Chats(db, Some(remover))
    ensures Delivered(db, ChatRemoved(target.id, target), Some(remover))
  {
  }

  /** addMessage adds the message to its chat's messages and to no other
      chat's, leaves every chat list alone, is delivered to exactly the
      chat's members, and is "mine" to its sender only. */
  lemma {:induction false} AddMessageEffects(db: Db, m: Message, chatId: ChatId, currentUser: Option<User>)
    requires db.WellKeyed()
    requires m.id !in db.messages
    ensures ChatMessages(db.InsertMessage(m), chatId) ==
      if chatId == m.chatId then ChatMessages(db, chatId) + {m} else ChatMessages(db, chatId)
    ensures Chats(db.InsertMessage(m), currentUser) == Chats(db, currentUser)
    ensures MessageAddedFilter(db.InsertMessage(m), m, currentUser) <==> IsMember(db, m.chatId, currentUser)
    ensures currentUser.Some? ==> IsMine(m, currentUser) == Ok(currentUser.value.id == m.senderUserId)
  {
    var db' := db.InsertMessage(m);
    assert db'.messages.Values == db.messages.Values + {m} by {
      forall x | x in db'.messages.Values ensures x in db.messages.Values + {m} {
        var k :| k in db'.messages && db'.messages[k] == x;
        if k != m.id { assert db.messages[k] == x; }
      }
      forall x | x in db.messages.Values ensures x in db'.messages.Values {
        var k :| k in db.messages && db.messages[k] == x;
        assert db'.messages[k] == x;
      }
      assert db'.messages[m.id] == m;
    }
  }

  /** addMessage does not check that the sender belongs to the chat: a user
      outside a chat can post to it, and the message is stored and reaches
      the chat's members but not the sender. */
  lemma {:induction false} NonMemberMessageReachesMembers(db: Db, m: Message, sender: User, currentUser: Option<User>)
    requires db.WellKeyed()
    requires m.id !in db.messages
    requires m.senderUserId == sender.id
    requires !IsMember(db, m.chatId, Some(sender))
    ensures m in ChatMessages(db.InsertMessage(m), m.chatId)
    ensures !MessageAddedFilter(db.InsertMessage(m), m, Some(sender))
    ensures MessageAddedFilter(db.InsertMessage(m), m, currentUser) <==> IsMember(db, m.chatId, currentUser)
  {
    AddMessageEffects(db, m, m.chatId, currentUser);
  }

  /** A new user appears in every other viewer's user list, and signUp keeps
      usernames unique because it refuses a name in use. */
  lemma {:induction false} SignUpEffects(db: Db, u: User, currentUser: Option<User>)
    requires db.WellKeyed()
    requires u.id !in db.users
    ensures Users(db.InsertUser(u), currentUser) ==
      if currentUser.Some? && currentUser.value.id != u.id then Users(db, currentUser) + {u}
      else Users(db, currentUser)
    ensures db.UniqueUsernames() && !UsernameInUse(db, u.username) ==> db.InsertUser(u).UniqueUsernames()
  {
    var db' := db.InsertUser(u);
    assert db'.users.Values == db.users.Values + {u} by {
      forall x | x in db'.users.Values ensures x in db.users.Values + {u} {
        var k :| k in db'.users && db'.users[k] == x;
        if k != u.id { assert db.users[k] == x; }
      }
      forall x | x in db.users.Values ensures x in db'.users.Values {
        var k :| k in db.users && db.users[k] == x;
        assert db'.users[k] == x;
      }
      assert db'.users[u.id] == u;
    }
  }

  /** Chat.picture as written throws for a chat in which the viewer has no
      other participant, e.g. one whose only membership row is the viewer's;
      the guarded form falls back to the random photo. */
  lemma LoneChatPictureThrows(db: Db, viewer: User, chatId: ChatId, photo: Option<string>)
    requires OtherParticipants(db, viewer.id, chatId) == {}
    ensures ChatPictureAsWritten(db, Some(viewer), chatId, photo) == Err(NoParticipant)
    ensures ChatPicture(db, Some(viewer), chatId, photo) == photo
  {
  }

  /** Such a chat exists: a user who is in no chat yet (so the duplicate
      check, which for recipient = self matches every chat of theirs, finds
      nothing) names themself as recipient, and the database accepts the
      repeated (chat, user) row; the committed chat's only member is that
      user. */
  lemma SelfChatHasNoOtherParticipant(db: Db, c: Chat, me: User)
    requires db.WellKeyed()
    requires FreshChatId(db, c.id)
    requires ExistingChats(db, me.id, me.id) == {}
    requires me.id in db.users && db.users[me.id] == me
    ensures OtherParticipants(WithNewChat(db, c, me.id, me.id), me.id, c.id) == {}
    ensures Participants(WithNewChat(db, c, me.id, me.id), c.id) == {me}
  {
  }
}
