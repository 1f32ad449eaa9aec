/** The group-message endpoints of
    backend/src/controllers/groupMessageController.js: members post to and
    read a group; a message is deleted by its sender or the group's admin.
    Posting and deleting notify the group's socket room. */
module GroupMessageController {
  import opened Base
  import opened Models
  import opened Wire
  import opened Sorting
  import opened GroupController

  /** `.populate("senderId", ...)`: the sender id becomes a user document. */
  function Populate(m: GroupMessage): GroupMessage {
    m.(senderId := Populated(m.senderId.id))
  }

  function GroupCreatedAt(m: GroupMessage): int {
    m.createdAt
  }

  /** The group's messages as the database returns them, oldest first. */
  function Timeline(msgs: seq<GroupMessage>, gid: GroupId): seq<GroupMessage> {
    SortBy(GroupPart(msgs, gid), GroupCreatedAt)
  }

  /** `sendGroupMessage`: text or image is required, then the group must exist
      and the caller be a member. The message is stored with the defaults, the
      group's `updatedAt` is bumped, and the populated message goes to the
      group's room. The image is not kept (see the README). */
  function SendGroupMessage(db: GroupDb, caller: UserId, gid: GroupId, text: Option<string>,
                            image: Option<string>, id: MessageId, now: int): Response<GroupDb, GroupMessage>
  {
    if !Truthy(text) && !Truthy(image) then Reject(db, EmptyMessage)
    else if gid !in db.groups then Reject(db, GroupNotFound)
    else if caller !in db.groups[gid].members then Reject(db, NotGroupMember)
    else
      var m := GroupMessage(id, gid, Raw(caller), Some(text.GetOr("")), None, None, None, Sent, false, [], [], now);
      var shown := Populate(m);
      Response(GroupDb(db.groups[gid := db.groups[gid].(updatedAt := now)], db.messages + [m]),
               Ok(shown), [Emit(Room(gid), NewGroupMessage(shown))])
  }

  /** `getGroupMessages`: a member reads the group's messages, oldest first,
      senders populated. */
  function GetGroupMessages(db: GroupDb, caller: UserId, gid: GroupId): Response<GroupDb, seq<GroupMessage>> {
    if gid !in db.groups then Reject(db, GroupNotFound)
    else if caller !in db.groups[gid].members then Reject(db, NotGroupMember)
    else
      Response(db, Ok(PopulateAll(Timeline(db.messages, gid))), [])
  }

  /** `.populate("senderId", ...)` over a result list. */
  function PopulateAll(ms: seq<GroupMessage>): (r: seq<GroupMessage>)
    ensures |r| == |ms|
    ensures forall i :: 0 <= i < |ms| ==> r[i] == Populate(ms[i])
  {
    seq(|ms|, i requires 0 <= i < |ms| => Populate(ms[i]))
  }

  /** `deleteGroupMessage`: the sender may delete; anyone else only if the
      group still exists and they are its admin. */
  function DeleteGroupMessage(db: GroupDb, caller: UserId, id: MessageId): Response<GroupDb, ()> {
    var i := IndexOfGroupMessage(db.messages, id);
    if i < 0 then Reject(db, MessageNotFound)
    else
      var m := db.messages[i];
      if m.senderId.id != caller && (m.groupId !in db.groups || db.groups[m.groupId].admin != caller) then
        Reject(db, NotMessageOwner)
      else
        Response(db.(messages := db.messages[..i] + db.messages[i + 1..]), Ok(()),
                 [Emit(Room(m.groupId), GroupMessageDeleted(id))])
  }

  // ---------------------------------------------------------------------
  // Properties
  // ---------------------------------------------------------------------

  /** Posting: an empty post is refused first; only members of an existing
      group may post. A post appends exactly one fresh message from the
      caller to the group (text defaulting to ""), bumps that group's
      `updatedAt`, and emits the populated message to that group's room
      alone. Ids stay unique when the new id is unused, and admins stay
      members. */
  lemma SendGroupMessageSpec(db: GroupDb, caller: UserId, gid: GroupId, text: Option<string>,
                             image: Option<string>, id: MessageId, now: int)
    ensures var r := SendGroupMessage(db, caller, gid, text, image, id, now);
      && (r.result == Err(EmptyMessage) <==> !Truthy(text) && !Truthy(image))
      && (r.result.Ok? <==> (Truthy(text) || Truthy(image)) && gid in db.groups && caller in db.groups[gid].members)
      && (r.result.Err? ==> r.state == db && r.emits == [])
      && (r.result.Ok? ==>
            var m := r.result.value;
            && m.id == id && m.groupId == gid && m.createdAt == now
            && m.senderId == Populated(caller)
            && m.text == Some(if Truthy(text) then text.value else "")
            && FreshGroupMessage(m)
            && r.state.messages == db.messages + [m.(senderId := Raw(caller))]
            && r.state.groups == db.groups[gid := db.groups[gid].(updatedAt := now)]
            && r.emits == [Emit(Room(gid), NewGroupMessage(m))]
            && (AdminIsMember(db) ==> AdminIsMember(r.state))
            && ((UniqueGroupMessageIds(db.messages) && id !in GroupMessageIds(db.messages))
                ==> UniqueGroupMessageIds(r.state.messages)))
  {
    var r := SendGroupMessage(db, caller, gid, text, image, id, now);
    if r.result.Ok? && UniqueGroupMessageIds(db.messages) && id !in GroupMessageIds(db.messages) {
      var s := r.state.messages;
      forall i, j | 0 <= i < j < |s| ensures s[i].id != s[j].id {
        if j == |db.messages| {
          assert s[i] == db.messages[i];
          assert s[i].id in GroupMessageIds(db.messages);
        }
      }
    }
  }

  /** Reading: 404, then 403 for a non-member, and no state change. A member
      gets as many messages as the group holds, each of that group with its
      sender populated, oldest first. */
  lemma GetGroupMessagesSpec(db: GroupDb, caller: UserId, gid: GroupId)
    ensures var r := GetGroupMessages(db, caller, gid);
      && r.state == db && r.emits == []
      && (r.result == Err(GroupNotFound) <==> gid !in db.groups)
      && (r.result == Err(NotGroupMember) <==> gid in db.groups && caller !in db.groups[gid].members)
      && (r.result.Ok? ==>
            var out := r.result.value;
            && SortedBy(out, GroupCreatedAt)
            && |out| == |GroupPart(db.messages, gid)|
            && (forall i :: 0 <= i < |out| ==> out[i].groupId == gid && out[i].senderId.Populated?))
  {
    var r := GetGroupMessages(db, caller, gid);
    if r.result.Ok? {
      var f := GroupPart(db.messages, gid);
      var sorted := Timeline(db.messages, gid);
      var out := r.result.value;
      forall i | 0 <= i < |out| ensures out[i].groupId == gid {
        SortByElem(f, GroupCreatedAt, i);
      }
      forall i, j | 0 <= i < j < |out| ensures GroupCreatedAt(out[i]) <= GroupCreatedAt(out[j]) {
        assert out[i].createdAt == sorted[i].createdAt;
        assert out[j].createdAt == sorted[j].createdAt;
      }
    }
  }

  /** What a member reads is exactly the group's messages: each returned
      entry is a stored message of the group, populated, and every stored
      message of the group is returned. */
  lemma GetGroupMessagesExact(db: GroupDb, caller: UserId, gid: GroupId)
    requires gid in db.groups && caller in db.groups[gid].members
    ensures var out := GetGroupMessages(db, caller, gid).result.value;
      && (forall i :: 0 <= i < |out| ==> exists m :: m in db.messages && m.groupId == gid && out[i] == Populate(m))
      && (forall m :: m in db.messages && m.groupId == gid ==> Populate(m) in out)
  {
    var f := GroupPart(db.messages, gid);
    var sorted := Timeline(db.messages, gid);
    var out := GetGroupMessages(db, caller, gid).result.value;
    forall i | 0 <= i < |out| ensures exists m :: m in db.messages && m.groupId == gid && out[i] == Populate(m) {
      SortByElem(f, GroupCreatedAt, i);
      var c := sorted[i];
      assert out[i] == Populate(c);
    }
    forall m | m in db.messages && m.groupId == gid ensures Populate(m) in out {
      SortByMembers(f, GroupCreatedAt, m);
      var k :| 0 <= k < |sorted| && sorted[k] == m;
      assert out[k] == Populate(m);
    }
  }

  /** Deleting: 404 for an unknown id; otherwise allowed exactly for the
      sender and for the admin of the message's (existing) group. A delete
      removes one message, keeps every group, and notifies the message's
      group room; with unique ids the remaining messages are exactly those
      with another id. */
  lemma DeleteGroupMessageSpec(db: GroupDb, caller: UserId, id: MessageId)
    ensures var r := DeleteGroupMessage(db, caller, id);
      && (r.result == Err(MessageNotFound) <==> id !in GroupMessageIds(db.messages))
      && (r.result.Err? ==> r.state == db && r.emits == [])
      && (r.result.Ok? ==>
            var m := db.messages[IndexOfGroupMessage(db.messages, id)];
            && r.state.groups == db.groups
            && |r.state.messages| == |db.messages| - 1
            && r.emits == [Emit(Room(m.groupId), GroupMessageDeleted(id))])
      && (id in GroupMessageIds(db.messages) ==>
            var m := db.messages[IndexOfGroupMessage(db.messages, id)];
            (r.result.Ok? <==> m.senderId.id == caller
                               || (m.groupId in db.groups && db.groups[m.groupId].admin == caller)))
      && (r.result.Ok? && UniqueGroupMessageIds(db.messages) ==>
            forall m :: m in r.state.messages <==> m in db.messages && m.id != id)
  {
    var r := DeleteGroupMessage(db, caller, id);
    var i := IndexOfGroupMessage(db.messages, id);
    if r.result.Ok? && UniqueGroupMessageIds(db.messages) {
      assert r.state.messages == db.messages[..i] + db.messages[i + 1..];
      forall m ensures m in r.state.messages <==> m in db.messages && m.id != id {
        RemoveAtUnique(db.messages, i, m);
      }
    }
  }

  /** With unique ids, cutting out position `i` removes exactly the record
      with that position's id. */
  lemma RemoveAtUnique(s: seq<GroupMessage>, i: int, m: GroupMessage)
    requires UniqueGroupMessageIds(s) && 0 <= i < |s|
    ensures m in s[..i] + s[i + 1..] <==> m in s && m.id != s[i].id
  {
    var s' := s[..i] + s[i + 1..];
    if m in s' {
      var k :| 0 <= k < |s'| && s'[k] == m;
      if k < i {
        assert s[k] == m;
      } else {
        assert s[k + 1] == m;
      }
    }
    if m in s && m.id != s[i].id {
      var k :| 0 <= k < |s| && s[k] == m;
      if k < i {
        assert s'[k] == m;
      } else {
        assert s'[k - 1] == m;
      }
    }
  }

}
