/** The client's group state, frontend/src/store/useGroupStore.js: the
    group list and selection updates after HTTP replies, and the socket
    listeners installed for the selected group. `reply` is the server's
    response body, `None` when the request failed; listeners keep the id of
    the group selected when they were installed. */
module GroupStore {
  import opened Base
  import opened Models
  import opened Wire

  datatype GroupState = GroupState(groups: seq<Group>, selected: Option<Group>, messages: seq<GroupMessage>)

  /** `groupMessages.some(m => m._id === id)`. */
  predicate Listed(msgs: seq<GroupMessage>, id: MessageId) {
    exists i :: 0 <= i < |msgs| && msgs[i].id == id
  }

  /** `selectedGroup?._id === id`. */
  predicate IsSelected(st: GroupState, id: GroupId) {
    st.selected.Some? && st.selected.value.id == id
  }

  // ---------------------------------------------------------------------
  // Socket listeners
  // ---------------------------------------------------------------------

  /** `newGroupMessage`: append a message of the selected group that is not
      yet listed; unless its (populated) sender is the current user, ask the
      server to mark it read. */
  function OnNewGroupMessage(msgs: seq<GroupMessage>, selectedId: GroupId, authId: UserId, m: GroupMessage): Next<seq<GroupMessage>> {
    if m.groupId == selectedId && !Listed(msgs, m.id) then
      Next(msgs + [m], if HasIdField(m.senderId, authId) then [] else [PutGroupMessageRead(m.id)])
    else Next(msgs, [])
  }

  /** `deleteGroupMessage`: drop the messages with that id. */
  function OnDeleteGroupMessage(msgs: seq<GroupMessage>, id: MessageId): seq<GroupMessage> {
    Filter(msgs, (m: GroupMessage) => m.id != id)
  }

  /** `groupMessageStatusUpdate`: set the status of the messages with that id. */
  function OnGroupMessageStatusUpdate(msgs: seq<GroupMessage>, id: MessageId, status: GroupStatus): seq<GroupMessage> {
    seq(|msgs|, i requires 0 <= i < |msgs| => if msgs[i].id == id then msgs[i].(status := status) else msgs[i])
  }

  /** `groupMessageReaction`, and the replies of `addGroupMessageReaction` and
      `removeGroupMessageReaction`: replace the reactions of the messages with
      that id. */
  function SetReactions(msgs: seq<GroupMessage>, id: MessageId, reactions: seq<Reaction>): seq<GroupMessage> {
    seq(|msgs|, i requires 0 <= i < |msgs| => if msgs[i].id == id then msgs[i].(reactions := reactions) else msgs[i])
  }

  /** The reaction requests change the list only when the server answered. */
  function ReactionReply(msgs: seq<GroupMessage>, id: MessageId, reply: Option<seq<Reaction>>): seq<GroupMessage> {
    if reply.Some? then SetReactions(msgs, id, reply.value) else msgs
  }

  /** The ids of a `readBy` list, raw or populated. */
  function ReaderIds(readBy: seq<UserRef>): seq<UserId> {
    seq(|readBy|, k requires 0 <= k < |readBy| => readBy[k].id)
  }

  /** The test the listener writes: `readBy.some(user => user._id === userId)`,
      true only for an entry that is an object with that `_id`. */
  predicate ListedById(readBy: seq<UserRef>, u: UserId) {
    exists k :: 0 <= k < |readBy| && HasIdField(readBy[k], u)
  }

  /** Whether some entry names the user, as a raw id or as an object. */
  predicate HasRead(readBy: seq<UserRef>, u: UserId) {
    u in ReaderIds(readBy)
  }

  /** `groupMessageRead` as written: the user is appended as `{ _id }` unless
      an object entry with that `_id` is present. */
  function OnGroupMessageReadAsWritten(msgs: seq<GroupMessage>, id: MessageId, u: UserId): seq<GroupMessage> {
    seq(|msgs|, i requires 0 <= i < |msgs| =>
      if msgs[i].id == id && !ListedById(msgs[i].readBy, u)
      then msgs[i].(readBy := msgs[i].readBy + [Populated(u)]) else msgs[i])
  }

  /** `groupMessageRead` as its comment intends: the user is appended unless
      already recorded in either form. */
  function OnGroupMessageRead(msgs: seq<GroupMessage>, id: MessageId, u: UserId): seq<GroupMessage> {
    seq(|msgs|, i requires 0 <= i < |msgs| =>
      if msgs[i].id == id && !HasRead(msgs[i].readBy, u)
      then msgs[i].(readBy := msgs[i].readBy + [Populated(u)]) else msgs[i])
  }

  // ---------------------------------------------------------------------
  // Actions
  // ---------------------------------------------------------------------

  /** `createGroup`: the created group is appended. */
  function CreateGroup(st: GroupState, reply: Option<Group>): GroupState {
    if reply.Some? then st.(groups := st.groups + [reply.value]) else st
  }

  /** `sendGroupMessage`: with a group selected, the server's message is
      appended; without one the request is never made. */
  function SendGroupMessage(st: GroupState, reply: Option<GroupMessage>): GroupState {
    if st.selected.Some? && reply.Some? then st.(messages := st.messages + [reply.value]) else st
  }

  /** `addGroupMembers`, `removeGroupMember`, `updateGroup`: the group with
      that id is replaced by the reply, in the list and as the selection. */
  function ReplaceGroup(st: GroupState, gid: GroupId, reply: Option<Group>): GroupState {
    if reply.None? then st
    else
      st.(groups := seq(|st.groups|, i requires 0 <= i < |st.groups| =>
                          if st.groups[i].id == gid then reply.value else st.groups[i]),
          selected := if IsSelected(st, gid) then reply else st.selected)
  }

  /** `deleteGroup`: drop the group; if it was selected, clear the selection
      and the messages. */
  function DeleteGroup(st: GroupState, gid: GroupId, ok: bool): GroupState {
    if !ok then st
    else GroupState(Filter(st.groups, (g: Group) => g.id != gid),
                    if IsSelected(st, gid) then None else st.selected,
                    if IsSelected(st, gid) then [] else st.messages)
  }

  /** `unsubscribeFromGroupMessages`: leave the selected group's room. */
  function LeaveEffects(st: GroupState, hasSocket: bool): seq<ClientEffect> {
    if hasSocket && st.selected.Some? then [SocketEmit(LeaveGroup(st.selected.value.id))] else []
  }

  /** `setSelectedGroup`: leave the previous group's room when switching
      away from it, select, and for a group clear the messages, fetch them
      and (deferred) join its room. */
  function SetSelectedGroup(st: GroupState, g: Option<Group>, hasSocket: bool): Next<GroupState> {
    var switching := st.selected.Some? && (g.None? || st.selected.value.id != g.value.id);
    var leave := if switching then LeaveEffects(st, hasSocket) else [];
    match g
    case None => Next(st.(selected := None), leave)
    case Some(group) =>
      Next(st.(selected := g, messages := []),
           leave + [FetchGroupMessages(group.id)] + (if hasSocket then [SocketEmit(JoinGroup(group.id))] else []))
  }

  /** `clearSelectedGroup`: leave the room, then nothing is selected or shown. */
  function ClearSelectedGroup(st: GroupState, hasSocket: bool): Next<GroupState> {
    Next(st.(selected := None, messages := []), LeaveEffects(st, hasSocket))
  }

  // ---------------------------------------------------------------------
  // Properties
  // ---------------------------------------------------------------------

  /** A pushed message is appended exactly when it belongs to the selected
      group and its id is not listed, so ids stay unique; a mark-read request
      goes out only for an appended message whose populated sender is not the
      current user. */
  lemma OnNewGroupMessageSpec(msgs: seq<GroupMessage>, selectedId: GroupId, authId: UserId, m: GroupMessage)
    ensures var r := OnNewGroupMessage(msgs, selectedId, authId, m);
      && (r.state == msgs + [m] <==> m.groupId == selectedId && m.id !in GroupMessageIds(msgs))
      && (r.state != msgs + [m] ==> r.state == msgs && r.effects == [])
      && (r.effects != [] <==> r.state == msgs + [m] && !(m.senderId.Populated? && m.senderId.id == authId))
      && (r.effects != [] ==> r.effects == [PutGroupMessageRead(m.id)])
      && (UniqueGroupMessageIds(msgs) ==> UniqueGroupMessageIds(r.state))
  {
    assert Listed(msgs, m.id) <==> m.id in GroupMessageIds(msgs) by {
      if m.id in GroupMessageIds(msgs) {
        var x :| x in msgs && x.id == m.id;
        var i :| 0 <= i < |msgs| && msgs[i] == x;
        assert msgs[i].id == m.id;
      }
    }
    assert msgs + [m] != msgs by {
      assert |msgs + [m]| != |msgs|;
    }
    var r := OnNewGroupMessage(msgs, selectedId, authId, m);
    if UniqueGroupMessageIds(msgs) && r.state == msgs + [m] {
      forall i, j | 0 <= i < j < |r.state| ensures r.state[i].id != r.state[j].id {
        if j == |msgs| {
          assert r.state[i] == msgs[i];
          assert msgs[i] in msgs;
        }
      }
    }
  }

  /** A delete removes every message with that id and keeps the others in
      their order; deleting an unlisted id changes nothing, and unique ids
      stay unique. */
  lemma OnDeleteGroupMessageSpec(msgs: seq<GroupMessage>, id: MessageId)
    ensures var r := OnDeleteGroupMessage(msgs, id);
      && id !in GroupMessageIds(r)
      && (forall m :: m in r <==> m in msgs && m.id != id)
      && (id !in GroupMessageIds(msgs) ==> r == msgs)
      && (UniqueGroupMessageIds(msgs) ==> UniqueGroupMessageIds(r))
  {
    var r := OnDeleteGroupMessage(msgs, id);
    forall m | m in msgs && m.id != id ensures m in r {
      var k :| 0 <= k < |msgs| && msgs[k] == m;
    }
    if id !in GroupMessageIds(msgs) {
      DeleteUnlisted(msgs, id);
    }
    if UniqueGroupMessageIds(msgs) {
      DeleteKeepsUnique(msgs, id);
    }
  }

  lemma {:induction false} DeleteUnlisted(msgs: seq<GroupMessage>, id: MessageId)
    requires id !in GroupMessageIds(msgs)
    ensures OnDeleteGroupMessage(msgs, id) == msgs
  {
    if |msgs| > 0 {
      assert msgs[0] in msgs;
      assert id !in GroupMessageIds(msgs[1..]) by {
        forall m | m in msgs[1..] ensures m in msgs {
        }
      }
      DeleteUnlisted(msgs[1..], id);
      assert msgs == [msgs[0]] + msgs[1..];
    }
  }

  lemma {:induction false} DeleteKeepsUnique(msgs: seq<GroupMessage>, id: MessageId)
    requires UniqueGroupMessageIds(msgs)
    ensures UniqueGroupMessageIds(OnDeleteGroupMessage(msgs, id))
  {
    if |msgs| > 0 {
      UniqueSplit(msgs);
      DeleteKeepsUnique(msgs[1..], id);
      var rest := OnDeleteGroupMessage(msgs[1..], id);
      if msgs[0].id != id {
        assert OnDeleteGroupMessage(msgs, id) == [msgs[0]] + rest;
        forall m | m in rest ensures m.id != msgs[0].id {
          var k :| 0 <= k < |rest| && rest[k] == m;
          assert m in msgs[1..];
        }
        ConsUnique(msgs[0], rest);
      } else {
        assert OnDeleteGroupMessage(msgs, id) == rest;
      }
    }
  }

  /** A record whose id the unique-id tail lacks can go in front. */
  lemma ConsUnique(x: GroupMessage, rest: seq<GroupMessage>)
    requires UniqueGroupMessageIds(rest)
    requires forall m :: m in rest ==> m.id != x.id
    ensures UniqueGroupMessageIds([x] + rest)
  {
    var r := [x] + rest;
    forall i, j | 0 <= i < j < |r| ensures r[i].id != r[j].id {
      assert r[j] == rest[j - 1];
      if i > 0 {
        assert r[i] == rest[i - 1];
      }
    }
  }

  /** Unique ids: the tail has unique ids and none of them is the head's. */
  lemma UniqueSplit(msgs: seq<GroupMessage>)
    requires |msgs| > 0 && UniqueGroupMessageIds(msgs)
    ensures UniqueGroupMessageIds(msgs[1..])
    ensures forall m :: m in msgs[1..] ==> m.id != msgs[0].id
  {
    var tail := msgs[1..];
    forall i, j | 0 <= i < j < |tail| ensures tail[i].id != tail[j].id {
      assert tail[i] == msgs[i + 1] && tail[j] == msgs[j + 1];
    }
    forall m | m in tail ensures m.id != msgs[0].id {
      var k :| 0 <= k < |tail| && tail[k] == m;
      assert msgs[k + 1] == m;
    }
  }

  /** A status push changes only the status of the messages with that id;
      every other field and message is kept. */
  lemma OnGroupMessageStatusUpdateSpec(msgs: seq<GroupMessage>, id: MessageId, status: GroupStatus)
    ensures var r := OnGroupMessageStatusUpdate(msgs, id, status);
      && |r| == |msgs|
      && (forall i :: 0 <= i < |msgs| ==> r[i].(status := msgs[i].status) == msgs[i])
      && (forall i :: 0 <= i < |msgs| && msgs[i].id == id ==> r[i].status == status)
      && (forall i :: 0 <= i < |msgs| && msgs[i].id != id ==> r[i] == msgs[i])
  {
  }

  /** A reaction push (or reply) changes only the reactions of the messages
      with that id; a failed reaction request changes nothing. */
  lemma SetReactionsSpec(msgs: seq<GroupMessage>, id: MessageId, reactions: seq<Reaction>, reply: Option<seq<Reaction>>)
    ensures var r := SetReactions(msgs, id, reactions);
      && |r| == |msgs|
      && (forall i :: 0 <= i < |msgs| ==> r[i].(reactions := msgs[i].reactions) == msgs[i])
      && (forall i :: 0 <= i < |msgs| && msgs[i].id == id ==> r[i].reactions == reactions)
      && (forall i :: 0 <= i < |msgs| && msgs[i].id != id ==> r[i] == msgs[i])
    ensures reply.None? ==> ReactionReply(msgs, id, reply) == msgs
  {
  }

  /** As written, a reader recorded by the server as a raw id is not
      recognised and is recorded a second time. */
  lemma ReadAsWrittenDuplicates()
    ensures var m := GroupMessage("m", "g", Raw("s"), Some("hi"), None, None, None, Sent, false, [Raw("u")], [], 0);
      var r := OnGroupMessageReadAsWritten([m], "m", "u");
      && r[0].readBy == [Raw("u"), Populated("u")]
      && !Distinct(ReaderIds(r[0].readBy))
  {
    var m := GroupMessage("m", "g", Raw("s"), Some("hi"), None, None, None, Sent, false, [Raw("u")], [], 0);
    assert !ListedById(m.readBy, "u");
    var r := OnGroupMessageReadAsWritten([m], "m", "u");
    assert ReaderIds(r[0].readBy)[0] == ReaderIds(r[0].readBy)[1];
  }

  /** Corrected: after the push the user is recorded on the message with that
      id; the list only ever grows by that one entry, no message gains a
      second entry for a reader, every other message is untouched, and a
      repeated push changes nothing. */
  lemma OnGroupMessageReadSpec(msgs: seq<GroupMessage>, id: MessageId, u: UserId)
    ensures var r := OnGroupMessageRead(msgs, id, u);
      && |r| == |msgs|
      && (forall i :: 0 <= i < |msgs| && msgs[i].id == id ==> HasRead(r[i].readBy, u))
      && (forall i :: 0 <= i < |msgs| && msgs[i].id == id ==>
            r[i].readBy == msgs[i].readBy || r[i].readBy == msgs[i].readBy + [Populated(u)])
      && (forall i :: 0 <= i < |msgs| ==> r[i].(readBy := msgs[i].readBy) == msgs[i])
      && (forall i :: 0 <= i < |msgs| && msgs[i].id != id ==> r[i] == msgs[i])
      && (forall i :: 0 <= i < |msgs| && Distinct(ReaderIds(msgs[i].readBy)) ==> Distinct(ReaderIds(r[i].readBy)))
      && OnGroupMessageRead(r, id, u) == r
  {
    var r := OnGroupMessageRead(msgs, id, u);
    forall i | 0 <= i < |msgs| && msgs[i].id == id ensures HasRead(r[i].readBy, u) {
      if !HasRead(msgs[i].readBy, u) {
        var rb := msgs[i].readBy + [Populated(u)];
        assert ReaderIds(rb)[|rb| - 1] == u;
      } else {
        assert r[i] == msgs[i];
      }
    }
    forall i | 0 <= i < |msgs| && Distinct(ReaderIds(msgs[i].readBy)) ensures Distinct(ReaderIds(r[i].readBy)) {
      if r[i] != msgs[i] {
        var old_ := ReaderIds(msgs[i].readBy);
        assert ReaderIds(r[i].readBy) == old_ + [u];
      }
    }
    var r2 := OnGroupMessageRead(r, id, u);
    forall i | 0 <= i < |r| ensures r2[i] == r[i] {
      if r[i].id == id {
        assert HasRead(r[i].readBy, u);
      }
    }
  }

  /** Member add, member remove and update replace the group with that id in
      the list and keep every other group; the selection is replaced only
      when it is that group; a failed request changes nothing; messages are
      kept. */
  lemma ReplaceGroupSpec(st: GroupState, gid: GroupId, reply: Option<Group>)
    ensures var r := ReplaceGroup(st, gid, reply);
      && (reply.None? ==> r == st)
      && r.messages == st.messages
      && |r.groups| == |st.groups|
      && (reply.Some? ==>
            && (forall i :: 0 <= i < |st.groups| && st.groups[i].id == gid ==> r.groups[i] == reply.value)
            && (forall i :: 0 <= i < |st.groups| && st.groups[i].id != gid ==> r.groups[i] == st.groups[i])
            && (r.selected == reply <==> IsSelected(st, gid) || st.selected == reply)
            && (!IsSelected(st, gid) ==> r.selected == st.selected))
  {
  }

  /** Deleting a group removes it from the list and keeps the other groups;
      the selection and the messages are cleared if and only if the deleted
      group was selected; a failed request changes nothing. */
  lemma DeleteGroupSpec(st: GroupState, gid: GroupId, ok: bool)
    ensures var r := DeleteGroup(st, gid, ok);
      && (!ok ==> r == st)
      && (ok ==>
            && (forall g :: g in r.groups <==> g in st.groups && g.id != gid)
            && (r.selected.None? <==> st.selected.None? || IsSelected(st, gid))
            && (IsSelected(st, gid) ==> r.messages == [])
            && (!IsSelected(st, gid) ==> r.selected == st.selected && r.messages == st.messages))
  {
  }

  /** Created groups and sent messages are appended at the end; failures and
      a missing selection change nothing. */
  lemma AppendSpec(st: GroupState, g: Option<Group>, m: Option<GroupMessage>)
    ensures var c := CreateGroup(st, g);
      && (g.Some? ==> c.groups == st.groups + [g.value] && c.selected == st.selected && c.messages == st.messages)
      && (g.None? ==> c == st)
    ensures var s := SendGroupMessage(st, m);
      && (st.selected.Some? && m.Some? ==> s.messages == st.messages + [m.value] && s.groups == st.groups && s.selected == st.selected)
      && (st.selected.None? || m.None? ==> s == st)
  {
  }

  /** Selecting: the selection becomes the argument; selecting a group clears
      the messages and ends with fetching them and (with a socket) joining its
      room, while deselecting through `setSelectedGroup(null)` keeps them. The
      previous room is left exactly when switching away from a selected group
      with a socket. */
  lemma SetSelectedGroupSpec(st: GroupState, g: Option<Group>, hasSocket: bool)
    ensures var r := SetSelectedGroup(st, g, hasSocket);
      var switching := st.selected.Some? && (g.None? || st.selected.value.id != g.value.id);
      && r.state.selected == g
      && r.state.groups == st.groups
      && (g.Some? ==> r.state.messages == [])
      && (g.None? ==> r.state.messages == st.messages)
      && ((SocketEmit(LeaveGroup(if st.selected.Some? then st.selected.value.id else "")) in r.effects)
          <==> switching && hasSocket)
      && (g.Some? ==> FetchGroupMessages(g.value.id) in r.effects)
      && (g.Some? ==> (SocketEmit(JoinGroup(g.value.id)) in r.effects <==> hasSocket))
      && (g.None? ==> forall e :: e in r.effects ==> e.SocketEmit? && e.event.LeaveGroup?)
  {
  }

  /** Clearing leaves no selection and no messages, and leaves the previous
      room when there was a selection and a socket. */
  lemma ClearSelectedGroupSpec(st: GroupState, hasSocket: bool)
    ensures var r := ClearSelectedGroup(st, hasSocket);
      && r.state.selected.None? && r.state.messages == [] && r.state.groups == st.groups
      && (r.effects != [] <==> hasSocket && st.selected.Some?)
      && (r.effects != [] ==> r.effects == [SocketEmit(LeaveGroup(st.selected.value.id))])
  {
  }
}
