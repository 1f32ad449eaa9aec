/** The group-roster endpoints of backend/src/controllers/groupController.js:
    creating a group, reading it as a member, and the admin-only update,
    add-members and delete, plus member removal by the admin or the member
    themself (never of the admin). */
module GroupController {
  import opened Base
  import opened Models
  import opened Wire

  /** The `GroupChat` and `GroupMessage` collections. */
  datatype GroupDb = GroupDb(groups: map<GroupId, Group>, messages: seq<GroupMessage>)

  /** Every group's admin is one of its members. */
  predicate AdminIsMember(db: GroupDb) {
    forall g :: g in db.groups ==> db.groups[g].admin in db.groups[g].members
  }

  /** The test of a `{ groupId }` query. */
  predicate InGroup(m: GroupMessage, g: GroupId) {
    m.groupId == g
  }

  function InGroupPred(g: GroupId): GroupMessage -> bool {
    (m: GroupMessage) => InGroup(m, g)
  }


  /** The messages `find({ groupId })` or `deleteMany({ groupId })` matches,
      in storage order. */
  function GroupPart(msgs: seq<GroupMessage>, gid: GroupId): (r: seq<GroupMessage>)
    ensures forall m :: m in r <==> m in msgs && InGroup(m, gid)
  {
    Filter(msgs, InGroupPred(gid))
  }

  /** The messages `deleteMany({ groupId })` leaves, in storage order. */
  function OtherGroups(msgs: seq<GroupMessage>, gid: GroupId): (r: seq<GroupMessage>)
    ensures forall m :: m in r <==> m in msgs && !InGroup(m, gid)
  {
    Filter(msgs, Not(InGroupPred(gid)))
  }

  /** `$addToSet: { $each: xs }`: append each id not already present. */
  function AddToSet(s: seq<UserId>, xs: seq<UserId>): seq<UserId>
    decreases |xs|
  {
    if |xs| == 0 then s
    else AddToSet(if xs[0] in s then s else s + [xs[0]], xs[1..])
  }

  /** `createGroup`: name and a non-empty member list are required; the
      creator is added if absent and becomes admin; the description defaults
      to "". */
  function CreateGroup(db: GroupDb, creator: UserId, name: Option<string>, members: Option<seq<UserId>>,
                       description: Option<string>, id: GroupId, now: int): Response<GroupDb, Group>
  {
    if !Truthy(name) || members.None? || |members.value| < 1 then Reject(db, MissingGroupFields)
    else
      var ms := if creator in members.value then members.value else members.value + [creator];
      var g := Group(id, name.value, creator, ms, description.GetOr(""), None, now);
      Response(db.(groups := db.groups[id := g]), Ok(g), [])
  }

  /** `getGroupById`: only members may read a group. */
  function GetGroupById(db: GroupDb, caller: UserId, id: GroupId): Response<GroupDb, Group> {
    if id !in db.groups then Reject(db, GroupNotFound)
    else if caller !in db.groups[id].members then Reject(db, NotGroupMember)
    else Response(db, Ok(db.groups[id]), [])
  }

  /** `updateGroup`: admin only; a truthy name, a provided description and a
      truthy image replace the stored ones. */
  function UpdateGroup(db: GroupDb, caller: UserId, id: GroupId, name: Option<string>,
                       description: Option<string>, groupImage: Option<string>): Response<GroupDb, Group>
  {
    if id !in db.groups then Reject(db, GroupNotFound)
    else if db.groups[id].admin != caller then Reject(db, NotGroupAdmin)
    else
      var g := db.groups[id];
      var g' := g.(name := if Truthy(name) then name.value else g.name,
                   description := if description.Some? then description.value else g.description,
                   groupImage := if Truthy(groupImage) then groupImage else g.groupImage);
      Response(db.(groups := db.groups[id := g']), Ok(g'), [])
  }

  /** `addGroupMembers`: the list is validated before the lookup; admin only. */
  function AddGroupMembers(db: GroupDb, caller: UserId, id: GroupId, members: Option<seq<UserId>>): Response<GroupDb, Group> {
    if members.None? || |members.value| == 0 then Reject(db, InvalidMemberIds)
    else if id !in db.groups then Reject(db, GroupNotFound)
    else if db.groups[id].admin != caller then Reject(db, NotGroupAdmin)
    else
      var g := db.groups[id];
      var g' := g.(members := AddToSet(g.members, members.value));
      Response(db.(groups := db.groups[id := g']), Ok(g'), [])
  }

  /** `removeGroupMember`: the admin may remove anyone but themself; any
      member may remove themself. */
  function RemoveGroupMember(db: GroupDb, caller: UserId, id: GroupId, memberId: UserId): Response<GroupDb, Group> {
    if id !in db.groups then Reject(db, GroupNotFound)
    else if db.groups[id].admin != caller && caller != memberId then Reject(db, NoRemovePermission)
    else if memberId == db.groups[id].admin && caller == memberId then Reject(db, AdminCannotLeave)
    else
      var g := db.groups[id];
      var g' := g.(members := Pull(g.members, memberId));
      Response(db.(groups := db.groups[id := g']), Ok(g'), [])
  }

  /** `deleteGroup`: admin only; removes the group's messages and the group. */
  function DeleteGroup(db: GroupDb, caller: UserId, id: GroupId): Response<GroupDb, ()> {
    if id !in db.groups then Reject(db, GroupNotFound)
    else if db.groups[id].admin != caller then Reject(db, NotGroupAdmin)
    else
      Response(GroupDb(db.groups - {id}, OtherGroups(db.messages, id)), Ok(()), [])
  }

  // ---------------------------------------------------------------------
  // Properties
  // ---------------------------------------------------------------------

  /** `$addToSet` keeps the old list as a prefix, holds exactly the old and
      the new ids, appends only ids that were absent, and keeps a
      duplicate-free list duplicate-free. */
  lemma {:induction false} AddToSetSpec(s: seq<UserId>, xs: seq<UserId>)
    ensures var r := AddToSet(s, xs);
      && |s| <= |r| && r[..|s|] == s
      && (forall x :: x in r <==> x in s || x in xs)
      && (forall i :: |s| <= i < |r| ==> r[i] !in s)
      && (Distinct(s) ==> Distinct(r))
    decreases |xs|
  {
    if |xs| > 0 {
      var s' := if xs[0] in s then s else s + [xs[0]];
      AddToSetSpec(s', xs[1..]);
      var r := AddToSet(s, xs);
      assert r == AddToSet(s', xs[1..]);
      assert r[..|s'|] == s';
      assert r[..|s|] == s by {
        assert s'[..|s|] == s;
        assert r[..|s|] == r[..|s'|][..|s|];
      }
      forall x ensures x in r <==> x in s || x in xs {
        assert x in xs <==> x == xs[0] || x in xs[1..] by {
          assert xs == [xs[0]] + xs[1..];
        }
      }
      forall i | |s| <= i < |r| ensures r[i] !in s {
        if i < |s'| {
          assert r[i] == s'[i] == xs[0];
        }
      }
      if Distinct(s) {
        assert Distinct(s');
      }
    }
  }

  /** A created group has the creator as admin, exactly the requested
      members with the creator appended if missing, the given name, the given
      description or "" and no image; the only rejection is a missing name or
      an absent or empty member list, and nothing is emitted. */
  lemma CreateGroupSpec(db: GroupDb, creator: UserId, name: Option<string>, members: Option<seq<UserId>>,
                        description: Option<string>, id: GroupId, now: int)
    ensures var r := CreateGroup(db, creator, name, members, description, id, now);
      && (r.result == Err(MissingGroupFields) <==> !Truthy(name) || members.None? || |members.value| == 0)
      && (r.result.Err? ==> r.state == db)
      && (r.result.Ok? ==>
            && r.result.value.admin == creator
            && creator in r.result.value.members
            && (forall u :: u in r.result.value.members <==> u in members.value || u == creator)
            && r.result.value.members[..|members.value|] == members.value
            && r.result.value.members == (if creator in members.value then members.value else members.value + [creator])
            && r.result.value.name == name.value
            && r.result.value.description == description.GetOr("")
            && (description.None? ==> r.result.value.description == "")
            && r.result.value.id == id && r.result.value.updatedAt == now && r.result.value.groupImage.None?
            && r.emits == []
            && r.state.groups == db.groups[id := r.result.value]
            && r.state.messages == db.messages
            && (AdminIsMember(db) ==> AdminIsMember(r.state)))
  {
  }

  /** Reading a group: 404 for an unknown group, 403 for a non-member,
      otherwise the group; nothing changes. */
  lemma GetGroupByIdSpec(db: GroupDb, caller: UserId, id: GroupId)
    ensures var r := GetGroupById(db, caller, id);
      && r.state == db && r.emits == []
      && (r.result == Err(GroupNotFound) <==> id !in db.groups)
      && (r.result == Err(NotGroupMember) <==> id in db.groups && caller !in db.groups[id].members)
      && (r.result.Ok? ==> id in db.groups && r.result.value == db.groups[id])
  {
  }

  /** Update, add-members and delete succeed only for the group's admin; for
      anyone else on an existing group the answer is 403 and nothing
      changes. */
  lemma AdminOnly(db: GroupDb, caller: UserId, id: GroupId, name: Option<string>, description: Option<string>,
                  groupImage: Option<string>, members: Option<seq<UserId>>)
    ensures UpdateGroup(db, caller, id, name, description, groupImage).result.Ok? ==> db.groups[id].admin == caller
    ensures AddGroupMembers(db, caller, id, members).result.Ok? ==> db.groups[id].admin == caller
    ensures DeleteGroup(db, caller, id).result.Ok? ==> db.groups[id].admin == caller
    ensures id in db.groups && db.groups[id].admin != caller ==>
      && UpdateGroup(db, caller, id, name, description, groupImage) == Reject(db, NotGroupAdmin)
      && DeleteGroup(db, caller, id) == Reject(db, NotGroupAdmin)
      && (members.Some? && |members.value| > 0 ==> AddGroupMembers(db, caller, id, members) == Reject(db, NotGroupAdmin))
  {
  }

  /** An update replaces the name only by a truthy one, the description
      whenever one is provided (even ""), the image only by a truthy one;
      admin, members and every other group are kept. */
  lemma UpdateGroupSpec(db: GroupDb, caller: UserId, id: GroupId, name: Option<string>,
                        description: Option<string>, groupImage: Option<string>)
    requires id in db.groups && db.groups[id].admin == caller
    ensures var r := UpdateGroup(db, caller, id, name, description, groupImage);
      var old_ := db.groups[id];
      && r.result.Ok?
      && r.state.groups == db.groups[id := r.result.value]
      && r.result.value.name == (if Truthy(name) then name.value else old_.name)
      && r.result.value.description == (if description.Some? then description.value else old_.description)
      && r.result.value.groupImage == (if Truthy(groupImage) then groupImage else old_.groupImage)
      && r.result.value.(name := old_.name, description := old_.description, groupImage := old_.groupImage) == old_
      && (AdminIsMember(db) ==> AdminIsMember(r.state))
  {
  }

  /** Adding members: a missing or empty list is refused before the lookup;
      otherwise the admin's request unions the ids into the roster, keeping
      the old roster as a prefix and creating no duplicates. */
  lemma AddGroupMembersSpec(db: GroupDb, caller: UserId, id: GroupId, members: Option<seq<UserId>>)
    ensures var r := AddGroupMembers(db, caller, id, members);
      && (r.result == Err(InvalidMemberIds) <==> members.None? || |members.value| == 0)
      && (r.result.Err? ==> r.state == db)
      && (r.result.Ok? ==>
            var before := db.groups[id].members;
            var after := r.result.value.members;
            && r.state.groups == db.groups[id := r.result.value]
            && r.result.value == db.groups[id].(members := after)
            && |before| <= |after| && after[..|before|] == before
            && (forall u :: u in after <==> u in before || u in members.value)
            && (Distinct(before) ==> Distinct(after))
            && (AdminIsMember(db) ==> AdminIsMember(r.state)))
  {
    var r := AddGroupMembers(db, caller, id, members);
    if r.result.Ok? {
      AddToSetSpec(db.groups[id].members, members.value);
      var before := db.groups[id].members;
      var after := r.result.value.members;
      if AdminIsMember(db) {
        assert db.groups[id].admin in before;
        assert db.groups[id].admin in after;
      }
    }
  }

  /** Removing a member is allowed exactly for the admin removing someone
      else and for a non-admin member removing themself; then every
      occurrence of the member leaves the roster and nothing else does. */
  lemma RemoveGroupMemberSpec(db: GroupDb, caller: UserId, id: GroupId, memberId: UserId)
    ensures var r := RemoveGroupMember(db, caller, id, memberId);
      && (r.result.Ok? <==>
            id in db.groups
            && ((db.groups[id].admin == caller && memberId != caller)
                || (caller == memberId && memberId != db.groups[id].admin)))
      && (r.result.Err? ==> r.state == db)
      && (r.result.Ok? ==>
            && memberId != db.groups[id].admin
            && r.state.groups == db.groups[id := r.result.value]
            && r.result.value == db.groups[id].(members := Pull(db.groups[id].members, memberId))
            && memberId !in r.result.value.members
            && (forall u :: u != memberId ==> (u in r.result.value.members <==> u in db.groups[id].members)))
  {
  }

  /** The admin is never removed: whatever the request, a group whose admin
      was a member still has the admin as a member. */
  lemma AdminStaysMember(db: GroupDb, caller: UserId, id: GroupId, memberId: UserId)
    requires AdminIsMember(db)
    ensures AdminIsMember(RemoveGroupMember(db, caller, id, memberId).state)
  {
    var r := RemoveGroupMember(db, caller, id, memberId);
    if r.result.Ok? {
      var g := db.groups[id];
      assert g.admin in g.members;
      assert g.admin != memberId;
      assert g.admin in Pull(g.members, memberId);
    }
  }

  /** Deleting a group removes it and every message whose groupId matches,
      keeping all other groups, and every other message once, in storage
      order: the kept and the removed messages together are the old
      collection. */
  lemma DeleteGroupSpec(db: GroupDb, caller: UserId, id: GroupId)
    ensures var r := DeleteGroup(db, caller, id);
      && (r.result.Ok? <==> id in db.groups && db.groups[id].admin == caller)
      && (r.result.Err? ==> r.state == db)
      && (r.result.Ok? ==>
            && id !in r.state.groups
            && (forall g :: g != id ==> (g in r.state.groups <==> g in db.groups))
            && (forall g :: g in r.state.groups ==> r.state.groups[g] == db.groups[g])
            && (forall m :: m in r.state.messages <==> m in db.messages && m.groupId != id)
            && multiset(r.state.messages) + multiset(GroupPart(db.messages, id)) == multiset(db.messages)
            && Subsequence(r.state.messages, db.messages)
            && (AdminIsMember(db) ==> AdminIsMember(r.state)))
  {
    if id in db.groups && db.groups[id].admin == caller {
      FilterPartition(db.messages, InGroupPred(id));
      FilterSubsequence(db.messages, Not(InGroupPred(id)));
    }
  }
}
