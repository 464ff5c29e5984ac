/** The filters of the three subscriptions. Each runs once per (event,
    subscriber) pair, against the tables as they are when the event is
    delivered, and lets the event through only to a signed-in member of the
    event's chat. */
module Subscriptions {
  import opened Rows
  import opened Tables
  import opened Queries

  /** Subscription.messageAdded */
  predicate MessageAddedFilter(db: Db, messageAdded: Message, currentUser: Option<User>)
    ensures MessageAddedFilter(db, messageAdded, currentUser) <==>
      currentUser.Some? && Membership(messageAdded.chatId, currentUser.value.id) in db.chatsUsers
  {
    IsMember(db, messageAdded.chatId, currentUser)
  }

  /** Subscription.chatAdded */
  predicate ChatAddedFilter(db: Db, chatAdded: Chat, currentUser: Option<User>)
    ensures ChatAddedFilter(db, chatAdded, currentUser) <==>
      currentUser.Some? && Membership(chatAdded.id, currentUser.value.id) in db.chatsUsers
  {
    IsMember(db, chatAdded.id, currentUser)
  }

  /** Subscription.chatRemoved: the chat id comes from the payload's
      `targetChat`, the snapshot taken before the row was deleted. */
  predicate ChatRemovedFilter(db: Db, targetChat: Chat, currentUser: Option<User>)
    ensures ChatRemovedFilter(db, targetChat, currentUser) <==>
      currentUser.Some? && Membership(targetChat.id, currentUser.value.id) in db.chatsUsers
  {
    IsMember(db, targetChat.id, currentUser)
  }

  /** The chat an event is about, as its topic's filter reads it. */
  function EventChatId(e: Event): ChatId {
    match e
    case MessageAdded(m) => m.chatId
    case ChatAdded(c) => c.id
    case ChatRemoved(_, target) => target.id
  }

  /** The filter of the event's topic. */
  predicate Delivered(db: Db, e: Event, currentUser: Option<User>) {
    match e
    case MessageAdded(m) => MessageAddedFilter(db, m, currentUser)
    case ChatAdded(c) => ChatAddedFilter(db, c, currentUser)
    case ChatRemoved(_, target) => ChatRemovedFilter(db, target, currentUser)
  }

  /** Every topic's filter is the same rule: the subscriber is signed in and
      `chats_users` holds (event chat id, subscriber id). */
  lemma DeliveredIffMember(db: Db, e: Event, currentUser: Option<User>)
    ensures Delivered(db, e, currentUser) <==>
      currentUser.Some? && Membership(EventChatId(e), currentUser.value.id) in db.chatsUsers
    ensures currentUser.None? ==> !Delivered(db, e, currentUser)
  {
  }
}
