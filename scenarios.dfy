/** A client of `Store.ChatStore` that walks through one conversation and
    checks, from the methods' contracts and the lemmas alone, what each
    subscriber gets to see. */
module Scenarios {
  import opened Rows
  import opened Tables
  import opened Queries
  import opened Subscriptions
  import opened Store
  import opened Properties

  method Conversation()
  {
    var store := new ChatStore();
    var alice := User(1, "Alice", "alice", "h1", "");
    var bob := User(2, "Bob", "bob", "h2", "");
    var carol := User(3, "Carol", "carol", "h3", "");

    // Alice and Bob have no chat yet: addChat creates one
    assert ExistingChats(store.Tables(), alice.id, bob.id) == {};
    var before := store.Tables();
    var r1 := store.AddChat(Some(alice), bob.id, 10, None);
    var x := r1.value.value;
    assert store.events == [ChatAdded(x)];
    ChatAddedReachesParticipants(before, x, alice.id, bob.id, Some(bob));
    ChatAddedReachesParticipants(before, x, alice.id, bob.id, Some(carol));
    assert Delivered(store.Tables(), ChatAdded(x), Some(bob));
    assert !Delivered(store.Tables(), ChatAdded(x), Some(carol));

    // asking again returns the same chat and publishes nothing more
    AddChatThenFindsOnlyNewChat(before, x, alice.id, bob.id);
    var r2 := store.AddChat(Some(alice), bob.id, 20, None);
    assert r2 == Ok(Some(x));
    assert store.events == [ChatAdded(x)];

    WriteThenRemove(store, x, alice, bob, carol);
  }

  /** The rest of the conversation, in a chat of Alice's and Bob's that
      Carol is not in. */
  method WriteThenRemove(store: ChatStore, x: Chat, alice: User, bob: User, carol: User)
    requires store.Valid()
    requires x.id in store.chats && store.chats[x.id] == x
    requires Membership(x.id, alice.id) in store.chatsUsers && Membership(x.id, bob.id) in store.chatsUsers
    requires Membership(x.id, carol.id) !in store.chatsUsers
    modifies store
  {
    // Alice writes: Bob's subscription gets it, an anonymous one does not
    var r3 := store.AddMessage(Some(alice), x.id, "hi", 30, None);
    var m := r3.value.value;
    assert m.senderUserId == alice.id && m.chatId == x.id;
    assert Delivered(store.Tables(), MessageAdded(m), Some(bob));
    assert !Delivered(store.Tables(), MessageAdded(m), None);

    // Alice removes the chat: the event reaches Bob, not Carol
    var r4 := store.RemoveChat(Some(alice), x.id, None);
    assert r4 == Ok(Some(x.id));
    assert store.events[|store.events| - 1] == ChatRemoved(x.id, x);
    assert Delivered(store.Tables(), ChatRemoved(x.id, x), Some(bob));
    assert !Delivered(store.Tables(), ChatRemoved(x.id, x), Some(carol));
    assert ChatById(store.Tables(), Some(bob), x.id) == None;
  }
}
