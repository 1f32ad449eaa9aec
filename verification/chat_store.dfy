/** The client's direct-message list, frontend/src/store/useChatStore.js:
    the socket listeners `newMessage` and `messageStatusUpdate`, and the
    `updateMessageStatus` and `sendMessage` actions. Listeners are installed
    only while a user is selected and keep that user's id. */
module ChatStore {
  import opened Base
  import opened Models
  import opened Wire

  /** The message list and the selected user's id. */
  datatype ChatState = ChatState(messages: seq<Message>, selectedUser: Option<UserId>)

  /** `messages.some(m => m._id === id)`. */
  predicate Holds(msgs: seq<Message>, id: MessageId) {
    exists i :: 0 <= i < |msgs| && msgs[i].id == id
  }

  /** A pushed message concerns the selected conversation. */
  predicate Relevant(m: Message, selected: UserId) {
    m.senderId == selected || m.receiverId == selected
  }

  /** `newMessage`: append a relevant message not yet listed; one from the
      selected user is then marked read on the server and the sender told. */
  function OnNewMessage(msgs: seq<Message>, selected: UserId, m: Message): Next<seq<Message>> {
    if Relevant(m, selected) && !Holds(msgs, m.id) then
      Next(msgs + [m],
           if m.senderId == selected then [PutMessageStatus(m.id, Read), SocketEmit(MessageReadEv(m.id, m.senderId))]
           else [])
    else Next(msgs, [])
  }

  /** `msg._id === id ? { ...msg, status } : msg` over the list. */
  function SetStatus(msgs: seq<Message>, id: MessageId, status: DeliveryStatus): seq<Message> {
    seq(|msgs|, i requires 0 <= i < |msgs| => if msgs[i].id == id then msgs[i].(status := status) else msgs[i])
  }

  /** `messageStatusUpdate` listener. */
  function OnMessageStatusUpdate(msgs: seq<Message>, id: MessageId, status: DeliveryStatus): seq<Message> {
    SetStatus(msgs, id, status)
  }

  /** `updateMessageStatus`: the local list changes only once the server has
      accepted the request. */
  function UpdateMessageStatus(msgs: seq<Message>, id: MessageId, status: DeliveryStatus, ok: bool): seq<Message> {
    if ok then SetStatus(msgs, id, status) else msgs
  }

  /** `sendMessage`: with a user selected and the server's stored message in
      hand, that message goes at the end of the list; without a selection the
      request is never made. */
  function SendMessage(st: ChatState, reply: Option<Message>): ChatState {
    if st.selectedUser.Some? && reply.Some? then st.(messages := st.messages + [reply.value]) else st
  }

  // ---------------------------------------------------------------------
  // Properties
  // ---------------------------------------------------------------------

  /** A pushed message is appended exactly when it concerns the selected user
      and its id is not yet listed; otherwise the list is unchanged. Only an
      appended message from the selected user produces the read update and
      the `messageRead` emit, and duplicate-free ids stay duplicate-free. */
  lemma OnNewMessageSpec(msgs: seq<Message>, selected: UserId, m: Message)
    ensures var r := OnNewMessage(msgs, selected, m);
      && (r.state == msgs + [m] <==> Relevant(m, selected) && m.id !in MessageIds(msgs))
      && (r.state != msgs + [m] ==> r.state == msgs && r.effects == [])
      && (r.effects != [] <==> m.senderId == selected && m.id !in MessageIds(msgs))
      && (r.effects != [] ==> r.effects == [PutMessageStatus(m.id, Read), SocketEmit(MessageReadEv(m.id, selected))])
      && (UniqueIds(msgs) ==> UniqueIds(r.state))
  {
    assert Holds(msgs, m.id) <==> m.id in MessageIds(msgs) by {
      if m.id in MessageIds(msgs) {
        var x :| x in msgs && x.id == m.id;
        var i :| 0 <= i < |msgs| && msgs[i] == x;
        assert msgs[i].id == m.id;
      }
    }
    assert msgs + [m] != msgs by {
      assert |msgs + [m]| != |msgs|;
    }
    var r := OnNewMessage(msgs, selected, m);
    if UniqueIds(msgs) && r.state == msgs + [m] {
      forall i, j | 0 <= i < j < |r.state| ensures r.state[i].id != r.state[j].id {
        if j == |msgs| {
          assert r.state[i] == msgs[i];
          assert msgs[i] in msgs;
        }
      }
    }
  }

  /** A status update touches only the status of the messages with that id:
      every other field and every other message stay as they were. Applying
      it twice is applying it once. */
  lemma SetStatusSpec(msgs: seq<Message>, id: MessageId, status: DeliveryStatus)
    ensures var r := SetStatus(msgs, id, status);
      && |r| == |msgs|
      && (forall i :: 0 <= i < |msgs| ==> r[i].(status := msgs[i].status) == msgs[i])
      && (forall i :: 0 <= i < |msgs| && msgs[i].id == id ==> r[i].status == status)
      && (forall i :: 0 <= i < |msgs| && msgs[i].id != id ==> r[i] == msgs[i])
      && MessageIds(r) == MessageIds(msgs)
      && (UniqueIds(msgs) ==> UniqueIds(r))
      && SetStatus(r, id, status) == r
  {
    var r := SetStatus(msgs, id, status);
    forall x | x in MessageIds(r) ensures x in MessageIds(msgs) {
      var m :| m in r && m.id == x;
      var i :| 0 <= i < |r| && r[i] == m;
      assert msgs[i].id == x;
    }
    forall x | x in MessageIds(msgs) ensures x in MessageIds(r) {
      var m :| m in msgs && m.id == x;
      var i :| 0 <= i < |msgs| && msgs[i] == m;
      assert r[i].id == x;
    }
  }

  /** The local update waits for the server: a failed request leaves the list
      alone, a successful one applies exactly the pushed-update rule. */
  lemma UpdateMessageStatusSpec(msgs: seq<Message>, id: MessageId, status: DeliveryStatus, ok: bool)
    ensures !ok ==> UpdateMessageStatus(msgs, id, status, ok) == msgs
    ensures ok ==> UpdateMessageStatus(msgs, id, status, ok) == OnMessageStatusUpdate(msgs, id, status)
  {
  }

  /** Sending puts the server's message last and keeps everything before it;
      a failed send or a missing selection changes nothing. */
  lemma SendMessageSpec(st: ChatState, reply: Option<Message>)
    ensures var r := SendMessage(st, reply);
      && r.selectedUser == st.selectedUser
      && (st.selectedUser.Some? && reply.Some? ==>
            |r.messages| == |st.messages| + 1
            && r.messages[..|st.messages|] == st.messages
            && r.messages[|st.messages|] == reply.value)
      && (st.selectedUser.None? || reply.None? ==> r == st)
  {
  }
}
