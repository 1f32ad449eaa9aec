/** The direct-message endpoints of
    backend/src/controllers/messageController.js: fetching a conversation
    (which marks what the caller received as read), sending (sent, then
    delivered when the receiver is online) and explicit status updates that
    never move a read message back to delivered. */
module MessageController {
  import opened Base
  import opened Models
  import opened Wire
  import opened Sorting
  import Socket

  /** The `Message` collection, in storage order. */
  type Store = seq<Message>

  /** The `$or` filter of a conversation fetch. */
  predicate Between(m: Message, me: UserId, other: UserId) {
    || (m.senderId == me && m.receiverId == other)
    || (m.senderId == other && m.receiverId == me)
  }

  /** The filter of messages the fetch marks read. */
  predicate UnreadFor(m: Message, me: UserId) {
    m.receiverId == me && m.status != Read
  }

  function CreatedAt(m: Message): int {
    m.createdAt
  }

  /** The messages the `$or` filter matches, in storage order. */
  function Exchanged(store: Store, me: UserId, other: UserId): (r: seq<Message>)
    ensures forall m :: m in r <==> m in store && Between(m, me, other)
  {
    Filter(store, (m: Message) => Between(m, me, other))
  }

  /** The conversation as the database returns it, oldest first. */
  function Conversation(store: Store, me: UserId, other: UserId): seq<Message> {
    SortBy(Exchanged(store, me, other), CreatedAt)
  }

  /** The fetched messages addressed to the caller that are not yet read. */
  function NewlyRead(store: Store, me: UserId, other: UserId): seq<Message> {
    Filter(Conversation(store, me, other), (m: Message) => UnreadFor(m, me))
  }

  /** A fetched message as the caller receives it: read if addressed to them. */
  function AsSeenBy(m: Message, me: UserId): Message {
    if m.receiverId == me then m.(status := Read) else m
  }

  /** One `read` status update per newly read message, to its sender's
      socket when the sender is online. */
  function ReadReceipts(unread: seq<Message>, srv: Socket.Server): seq<Emit> {
    if |unread| == 0 then []
    else Socket.Forward(srv, unread[0].senderId, MessageStatusUpdate(unread[0].id, Read))
         + ReadReceipts(unread[1..], srv)
  }

  /** `getMessages`: return the conversation, mark every unread message
      addressed to the caller as read (by id), notify the senders. */
  function GetMessages(store: Store, srv: Socket.Server, me: UserId, other: UserId): Response<Store, seq<Message>> {
    var unread := NewlyRead(store, me, other);
    Response(MarkRead(store, set m | m in unread :: m.id),
             Ok(SeenBy(Conversation(store, me, other), me)),
             ReadReceipts(unread, srv))
  }

  /** The `updateMany` by id: the listed messages become read, in place. */
  function MarkRead(store: Store, ids: set<MessageId>): (r: Store)
    ensures |r| == |store|
    ensures forall i :: 0 <= i < |store| ==> r[i] == if store[i].id in ids then store[i].(status := Read) else store[i]
  {
    seq(|store|, i requires 0 <= i < |store| => if store[i].id in ids then store[i].(status := Read) else store[i])
  }

  /** The fetched list as sent back to the caller. */
  function SeenBy(conv: seq<Message>, me: UserId): (r: seq<Message>)
    ensures |r| == |conv|
    ensures forall i :: 0 <= i < |conv| ==> r[i] == AsSeenBy(conv[i], me)
  {
    seq(|conv|, i requires 0 <= i < |conv| => AsSeenBy(conv[i], me))
  }

  /** `sendMessage`: store the message as sent; if the receiver is online,
      push it to them, record it as delivered and tell an online sender. The
      uploaded image URL is not kept (see the README). */
  function SendMessage(store: Store, srv: Socket.Server, sender: UserId, receiver: UserId,
                       text: Option<string>, id: MessageId, now: int): Response<Store, Message>
  {
    var m := Message(id, sender, receiver, text, None, None, None, Sent, false, [], now);
    match Socket.ReceiverSocket(srv, receiver)
    case None => Response(store + [m], Ok(m), [])
    case Some(receiverSocket) =>
      var d := m.(status := Delivered);
      Response(store + [d], Ok(d),
               [Emit(SocketTarget(receiverSocket), NewMessage(m))]
               + Socket.Forward(srv, sender, MessageStatusUpdate(id, Delivered)))
  }

  /** The body's `status` as the endpoint accepts it. */
  function ParseStatus(s: string): Option<DeliveryStatus> {
    if s == "delivered" then Some(Delivered)
    else if s == "read" then Some(Read)
    else None
  }

  /** `updateMessageStatus`: validate the requested status, find the message,
      check that the caller is its receiver, refuse read -> delivered, then
      save and notify the online sender. */
  function UpdateMessageStatus(store: Store, srv: Socket.Server, caller: UserId,
                               id: MessageId, requested: string): Response<Store, ()>
  {
    match ParseStatus(requested)
    case None => Reject(store, InvalidStatus)
    case Some(status) =>
      var i := IndexOfMessage(store, id);
      if i < 0 then Reject(store, MessageNotFound)
      else if store[i].receiverId != caller then Reject(store, NotReceiver)
      else if store[i].status == Read && status == Delivered then Reject(store, CannotDowngrade)
      else
        Response(store[i := store[i].(status := status)], Ok(()),
                 Socket.Forward(srv, store[i].senderId, MessageStatusUpdate(id, status)))
  }

  // ---------------------------------------------------------------------
  // Properties
  // ---------------------------------------------------------------------

  /** Every message keeps its place and id and its status only moves forward
      along sent -> delivered -> read; the collection only grows. */
  predicate NoRegression(before: Store, after: Store) {
    && |before| <= |after|
    && forall i :: 0 <= i < |before| ==>
         after[i].id == before[i].id && before[i].status.Rank() <= after[i].status.Rank()
  }

  /** A fetch returns as many messages as pass the conversation filter,
      oldest first, and everything addressed to the caller reads as read. */
  lemma GetMessagesResult(store: Store, srv: Socket.Server, me: UserId, other: UserId)
    ensures var r := GetMessages(store, srv, me, other);
      && r.result.Ok?
      && |r.result.value| == |Exchanged(store, me, other)|
      && SortedBy(r.result.value, CreatedAt)
      && (forall i :: 0 <= i < |r.result.value| && r.result.value[i].receiverId == me ==>
            r.result.value[i].status == Read)
  {
    SeenBySorted(Conversation(store, me, other), me);
  }

  /** Marking messages read does not change their order by time. */
  lemma SeenBySorted(conv: seq<Message>, me: UserId)
    requires SortedBy(conv, CreatedAt)
    ensures SortedBy(SeenBy(conv, me), CreatedAt)
  {
    var shown := SeenBy(conv, me);
    forall i, j | 0 <= i < j < |shown| ensures CreatedAt(shown[i]) <= CreatedAt(shown[j]) {
      assert CreatedAt(shown[i]) == CreatedAt(conv[i]) && CreatedAt(shown[j]) == CreatedAt(conv[j]);
    }
  }

  /** A fetch returns exactly the messages between the two users: each of
      them appears (as the caller sees it) and nothing else does. */
  lemma GetMessagesExact(store: Store, srv: Socket.Server, me: UserId, other: UserId)
    ensures var shown := GetMessages(store, srv, me, other).result.value;
      && (forall m :: m in store && Between(m, me, other) ==> AsSeenBy(m, me) in shown)
      && (forall i :: 0 <= i < |shown| ==>
            exists m :: m in store && Between(m, me, other) && shown[i] == AsSeenBy(m, me))
  {
    var filtered := Exchanged(store, me, other);
    var conv := Conversation(store, me, other);
    var shown := GetMessages(store, srv, me, other).result.value;
    forall m | m in store && Between(m, me, other) ensures AsSeenBy(m, me) in shown {
      SortByMembers(filtered, CreatedAt, m);
      var j :| 0 <= j < |conv| && conv[j] == m;
      assert shown[j] == AsSeenBy(m, me);
    }
    forall i | 0 <= i < |shown|
      ensures exists m :: m in store && Between(m, me, other) && shown[i] == AsSeenBy(m, me)
    {
      SortByElem(filtered, CreatedAt, i);
      var c := conv[i];
      assert c in store && Between(c, me, other) && shown[i] == AsSeenBy(c, me);
    }
  }

  /** On a collection with unique ids, a fetch by `me` of the conversation
      with `other` marks read exactly the messages from `other` to `me`, and
      touches no other message. */
  lemma GetMessagesStore(store: Store, srv: Socket.Server, me: UserId, other: UserId)
    requires UniqueIds(store)
    ensures var r := GetMessages(store, srv, me, other);
      && |r.state| == |store|
      && forall i :: 0 <= i < |store| ==>
           r.state[i] == if store[i].senderId == other && store[i].receiverId == me
                         then store[i].(status := Read) else store[i]
  {
    var unread := NewlyRead(store, me, other);
    var ids := set m | m in unread :: m.id;
    var filtered := Exchanged(store, me, other);
    var conv := Conversation(store, me, other);
    forall i | 0 <= i < |store|
      ensures (store[i].id in ids) <==> (store[i].senderId == other && store[i].receiverId == me && store[i].status != Read)
    {
      if store[i].id in ids {
        var m :| m in unread && m.id == store[i].id;
        assert m in conv;
        SortByMembers(filtered, CreatedAt, m);
        assert m in store;
        var j :| 0 <= j < |store| && store[j] == m;
        assert i == j;
      }
      if store[i].senderId == other && store[i].receiverId == me && store[i].status != Read {
        assert store[i] in filtered;
        SortByMembers(filtered, CreatedAt, store[i]);
        assert store[i] in unread;
      }
    }
  }

  /** A fetch changes at most statuses, and only to read. */
  lemma GetMessagesNoRegression(store: Store, srv: Socket.Server, me: UserId, other: UserId)
    ensures NoRegression(store, GetMessages(store, srv, me, other).state)
  {
    var unread := NewlyRead(store, me, other);
    MarkReadNoRegression(store, set m | m in unread :: m.id);
  }

  lemma MarkReadNoRegression(store: Store, ids: set<MessageId>)
    ensures NoRegression(store, MarkRead(store, ids))
  {
    var st := MarkRead(store, ids);
    forall i | 0 <= i < |store| ensures st[i].id == store[i].id && store[i].status.Rank() <= st[i].status.Rank() {
    }
  }

  /** The read receipts of messages all sent by `other`: one per message, in
      order, to `other`'s socket when online; none otherwise. */
  lemma {:induction false} ReadReceiptsSpec(unread: seq<Message>, srv: Socket.Server, other: UserId)
    requires forall i :: 0 <= i < |unread| ==> unread[i].senderId == other
    ensures Socket.ReceiverSocket(srv, other).None? ==> ReadReceipts(unread, srv) == []
    ensures Socket.ReceiverSocket(srv, other).Some? ==>
      && |ReadReceipts(unread, srv)| == |unread|
      && forall i :: 0 <= i < |unread| ==>
           ReadReceipts(unread, srv)[i]
           == Emit(SocketTarget(Socket.ReceiverSocket(srv, other).value), MessageStatusUpdate(unread[i].id, Read))
  {
    if |unread| > 0 {
      ReadReceiptsSpec(unread[1..], srv, other);
      if Socket.ReceiverSocket(srv, other).Some? {
        var rest := ReadReceipts(unread[1..], srv);
        forall i | 0 <= i < |unread|
          ensures ReadReceipts(unread, srv)[i]
                  == Emit(SocketTarget(Socket.ReceiverSocket(srv, other).value), MessageStatusUpdate(unread[i].id, Read))
        {
          if i > 0 {
            assert ReadReceipts(unread, srv)[i] == rest[i - 1];
            assert unread[i] == unread[1..][i - 1];
          }
        }
      }
    }
  }

  /** A fetch emits one `read` update per newly read message to the other
      user's socket if they are online, and nothing if they are not; a user
      fetching their own notes-to-self is their own "other". */
  lemma GetMessagesEmits(store: Store, srv: Socket.Server, me: UserId, other: UserId)
    ensures var r := GetMessages(store, srv, me, other);
      var unread := NewlyRead(store, me, other);
      && (forall m :: m in unread <==> m in store && m.senderId == other && m.receiverId == me && m.status != Read)
      && (Socket.ReceiverSocket(srv, other).None? ==> r.emits == [])
      && (Socket.ReceiverSocket(srv, other).Some? ==>
            && |r.emits| == |unread|
            && forall i :: 0 <= i < |unread| ==>
                 r.emits[i] == Emit(SocketTarget(Socket.ReceiverSocket(srv, other).value),
                                    MessageStatusUpdate(unread[i].id, Read)))
  {
    var unread := NewlyRead(store, me, other);
    var filtered := Exchanged(store, me, other);
    var conv := Conversation(store, me, other);
    forall m ensures m in unread <==> m in store && m.senderId == other && m.receiverId == me && m.status != Read {
      SortByMembers(filtered, CreatedAt, m);
      if m in store && m.senderId == other && m.receiverId == me && m.status != Read {
        assert m in filtered;
      }
    }
    forall i | 0 <= i < |unread| ensures unread[i].senderId == other {
      assert unread[i] in conv;
      SortByMembers(filtered, CreatedAt, unread[i]);
    }
    ReadReceiptsSpec(unread, srv, other);
  }

  /** A sent message is stored once at the end: with the schema defaults,
      `delivered` if and only if the receiver is online at send time and
      `sent` otherwise. Its id stays unique when the database issued a fresh
      one. */
  lemma SendMessageStored(store: Store, srv: Socket.Server, sender: UserId, receiver: UserId,
                          text: Option<string>, id: MessageId, now: int)
    ensures var r := SendMessage(store, srv, sender, receiver, text, id, now);
      && r.result.Ok?
      && r.state == store + [r.result.value]
      && r.result.value.id == id && r.result.value.senderId == sender
      && r.result.value.receiverId == receiver && r.result.value.text == text
      && !r.result.value.isEdited && r.result.value.reactions == [] && r.result.value.createdAt == now
      && (r.result.value.status == Delivered <==> Socket.ReceiverSocket(srv, receiver).Some?)
      && (r.result.value.status == Sent <==> Socket.ReceiverSocket(srv, receiver).None?)
      && NoRegression(store, r.state)
      && (UniqueIds(store) && id !in MessageIds(store) ==> UniqueIds(r.state))
  {
  }

  /** What a send emits: nothing for an offline receiver; otherwise the
      message, still `sent`, to the receiver's socket, followed by a
      `delivered` update to the sender exactly when the sender is online
      too. */
  lemma SendMessageEmits(store: Store, srv: Socket.Server, sender: UserId, receiver: UserId,
                         text: Option<string>, id: MessageId, now: int)
    ensures var r := SendMessage(store, srv, sender, receiver, text, id, now);
      && (Socket.ReceiverSocket(srv, receiver).None? ==> r.emits == [])
      && (Socket.ReceiverSocket(srv, receiver).Some? ==>
            && 1 <= |r.emits| <= 2
            && r.emits[0] == Emit(SocketTarget(Socket.ReceiverSocket(srv, receiver).value),
                                  NewMessage(r.result.value.(status := Sent))))
      && (|r.emits| == 2 <==> Socket.ReceiverSocket(srv, receiver).Some? && Socket.ReceiverSocket(srv, sender).Some?)
      && (|r.emits| == 2 ==>
            r.emits[1] == Emit(SocketTarget(Socket.ReceiverSocket(srv, sender).value), MessageStatusUpdate(id, Delivered)))
  {
  }

  /** An explicit update succeeds exactly when the status is `delivered` or
      `read`, the message exists, the caller is its receiver and it is not a
      read -> delivered downgrade. Then only that message changes, to the
      requested status (never lower than before), and its online sender is
      told once; every failure leaves the collection alone and emits nothing. */
  lemma UpdateMessageStatusSpec(store: Store, srv: Socket.Server, caller: UserId, id: MessageId, requested: string)
    ensures var r := UpdateMessageStatus(store, srv, caller, id, requested);
      var i := IndexOfMessage(store, id);
      && (r.result.Ok? <==>
            && (requested == "delivered" || requested == "read")
            && i >= 0 && store[i].receiverId == caller
            && !(store[i].status == Read && requested == "delivered"))
      && (r.result.Err? ==> r.state == store && r.emits == [])
      && (r.result.Ok? ==>
            && r.state == store[i := store[i].(status := ParseStatus(requested).value)]
            && store[i].status.Rank() <= ParseStatus(requested).value.Rank()
            && r.emits == Socket.Forward(srv, store[i].senderId, MessageStatusUpdate(id, ParseStatus(requested).value))
            && |r.emits| <= 1
            && NoRegression(store, r.state))
  {
  }

  /** The error each failed check answers with, in the order the endpoint
      checks them: the status value before the lookup. */
  lemma UpdateMessageStatusErrors(store: Store, srv: Socket.Server, caller: UserId, id: MessageId, requested: string)
    ensures var r := UpdateMessageStatus(store, srv, caller, id, requested);
      var i := IndexOfMessage(store, id);
      && (requested != "delivered" && requested != "read" ==> r.result == Err(InvalidStatus))
      && ((requested == "delivered" || requested == "read") && id !in MessageIds(store) ==>
            r.result == Err(MessageNotFound))
      && ((requested == "delivered" || requested == "read") && i >= 0 && store[i].receiverId != caller ==>
            r.result == Err(NotReceiver))
      && (requested == "delivered" && i >= 0 && store[i].receiverId == caller && store[i].status == Read ==>
            r.result == Err(CannotDowngrade) && r.state == store)
  {
  }
}
