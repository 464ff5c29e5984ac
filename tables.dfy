/** The four tables as one value, and the effect of each SQL write on it. */
module Tables {
  import opened Rows

  /** A snapshot of the database: `users`, `chats` and `messages` keyed by
      their primary key, `chats_users` as a set of pairs. */
  datatype Db = Db(
    users: map<UserId, User>,
    chats: map<ChatId, Chat>,
    chatsUsers: set<Membership>,
    messages: map<MessageId, Message>)
  {
    /** Every row is stored under its own `id`. */
    ghost predicate WellKeyed() {
      && (forall id | id in users :: users[id].id == id)
      && (forall id | id in chats :: chats[id].id == id)
      && (forall id | id in messages :: messages[id].id == id)
    }

    /** No two users share a username (what `signUp` checks before inserting). */
    ghost predicate UniqueUsernames() {
      forall a, b | a in users && b in users && users[a].username == users[b].username :: a == b
    }

    /** `INSERT INTO chats DEFAULT VALUES RETURNING *` */
    function InsertChat(c: Chat): Db {
      this.(chats := chats[c.id := c])
    }

    /** `INSERT INTO chats_users(chat_id, user_id) VALUES(...)` */
    function InsertMembership(chatId: ChatId, userId: UserId): Db {
      this.(chatsUsers := chatsUsers + {Membership(chatId, userId)})
    }

    /** `DELETE FROM chats WHERE chats.id = ...`: only the `chats` row goes. */
    function DeleteChat(id: ChatId): Db {
      this.(chats := chats - {id})
    }

    /** `INSERT INTO messages(chat_id, sender_user_id, content) ... RETURNING *` */
    function InsertMessage(m: Message): Db {
      this.(messages := messages[m.id := m])
    }

    /** `INSERT INTO users(password, picture, username, name) ... RETURNING *` */
    function InsertUser(u: User): Db {
      this.(users := users[u.id := u])
    }
  }

  /** The three rows a committed `addChat` transaction writes. */
  function WithNewChat(db: Db, c: Chat, creatorId: UserId, recipientId: UserId): Db {
    db.InsertChat(c).InsertMembership(c.id, creatorId).InsertMembership(c.id, recipientId)
  }

  /** `id` is unused by `chats` and by `chats_users`, as a value drawn from
      the chats id sequence is. */
  ghost predicate FreshChatId(db: Db, id: ChatId) {
    id !in db.chats && forall m | m in db.chatsUsers :: m.chatId != id
  }
}
