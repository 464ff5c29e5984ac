/** Rows of the chat server's relational tables, the events it publishes
    and the values its resolvers return. */
module Rows {

  type UserId = nat
  type ChatId = nat
  type MessageId = nat

  /** A `created_at` value; the database's clock is a parameter of the model. */
  type Timestamp = nat

  /** A GraphQL field that may resolve to `null`. */
  datatype Option<T> = None | Some(value: T)

  /** A row of `users`. `password` holds the stored bcrypt hash, which the
      model treats as opaque text. An empty `picture` is JavaScript-falsy. */
  datatype User = User(id: UserId, name: string, username: string, password: string, picture: string)

  /** A row of `chats`: a chat has no name or picture of its own. */
  datatype Chat = Chat(id: ChatId, createdAt: Timestamp)

  /** A row of `chats_users`: `userId` takes part in `chatId`. */
  datatype Membership = Membership(chatId: ChatId, userId: UserId)

  /** A row of `messages`. */
  datatype Message = Message(id: MessageId, chatId: ChatId, senderUserId: UserId, content: string, createdAt: Timestamp)

  /** The payloads handed to `pubsub.publish`, one constructor per topic. */
  datatype Event =
    | MessageAdded(messageAdded: Message)
    | ChatAdded(chatAdded: Chat)
    | ChatRemoved(chatRemoved: ChatId, targetChat: Chat)

  /** The SQL statements the mutations issue; a mutation is told which one,
      if any, the database rejects. */
  datatype Statement =
    | FindExistingChat
    | Begin
    | InsertChat
    | InsertCreatorMembership
    | InsertRecipientMembership
    | SelectOwnedChat
    | DeleteChat
    | Commit
    | InsertMessage
    | FindUserByName
    | InsertUser

  /** Why a resolver throws. */
  datatype Failure =
    | Rejected(statement: Statement)   // the database error, rethrown
    | PasswordMismatch                 // "req.password and req.passwordConfirm don't match"
    | UsernameTaken                    // "username already exists"
    | NoCurrentUser                    // a TypeError reading `currentUser.id`
    | NoParticipant                    // a TypeError reading `participant.picture`

  /** A resolver either returns a value or throws. */
  datatype Result<T> = Ok(value: T) | Err(failure: Failure)
}
